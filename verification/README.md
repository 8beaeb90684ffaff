# Note keeper store and view synchroniser, modelled in Dafny

This project models the core of a single-user, browser-based note keeper.

**Store.** The store is `db.js`. Its document is `{notebooks: [...]}`. Each notebook holds an ordered list of notes. Every store operation reads the whole stored document, changes it in memory and writes the whole document back.

**Helpers.** The store relies on the lookup and formatting helpers in `utils.js`:
- `findNotebook`, `findNotebookIndex`, `findNote` and `findNoteIndex`;
- `generateID`, `getRelativeTime` and `getGreetingMsg`;
- `activeNotebook`.

**View synchroniser.** This is `client.js`. It patches the page after each store call. The page is modelled as a `View` value with these fields:
- the sidebar navigation items;
- the identifier of the active item;
- the panel title;
- the note panel, which holds either cards or the "No notes" placeholder;
- whether the "create note" buttons are enabled.

Each `client.*` method is a pure transition on that value.

Modules (one concept each):

| file | module | models |
|---|---|---|
| wrappers.dfy | `Wrappers` | `Option` (undefined or a value) and `Result` (returned or thrown) |
| decimal.dfy | `Decimal` | decimal printing of whole numbers (`toString`, template literals) and its inverse |
| notes.dfy | `Notes` | `Note`, `Notebook`, `Document`, edit payloads, and the document invariants |
| array_ops.dfy | `ArrayOps` | `Array.prototype.splice(start, 1)`, including negative starts |
| utils.dfy | `Utils` | `utils.js`: identifiers, lookups, relative time, greeting |
| store.dfy | `Store` | `db.js`: `initDB`, `readDB`/`writeDB`, and the eight `db.*` operations |
| store_properties.dfy | `StoreProperties` | ordering, read-back, cascade delete, and invariant preservation |
| view.dfy | `View` | `client.js` and `activeNotebook` |
| sync.dfy | `Sync` | each store operation followed by its `client.*` call keeps the page in step with the store |
| scenario.dfy | `Scenario` | the "Work" notebook walk-through, for both store and view |

Conventions of the model:
- **Storage.** `localStorage` is an `Option<Document>`. `None` means nothing is stored. The JSON round trip is taken to be exact.
- **Results.** Each store operation returns a `Step`. It holds the storage after the call and either the returned value or the error thrown.
- **Errors.** `NoDocument` means no document is stored: `JSON.parse(null)` is `null`, so the next `.notebooks` throws. `NotFound` means a lookup returned `undefined` and the next field access threw. Every throw happens before `writeDB`, so on failure storage is unchanged.
- **Clock.** Clock readings are parameters. `generateID` is the decimal text of the reading. `postedOn` is a second reading.
- **Payloads.** A create or edit payload has an optional `title` and an optional `text`. A field the payload does not have stays `undefined` (`None`) on a new note, and is left alone by an edit.
- **Page exceptions.** When a page lookup (`querySelector`) finds nothing, the transition returns `Threw` with the page as it was at the throw. `client.notebook.update` has already set the title at that point.

Behaviour worth knowing:
- `db.delete.notebook` and `db.delete.note` do not fail on a missing identifier. `findIndex` returns -1, and `splice(-1, 1)` removes the *last* notebook or note. An empty list stays empty.
- `client.notebook.update` sets the panel title whether or not the renamed notebook was active.
- `client.notebook.delete` without a sibling clears the panel to empty, not to the placeholder. The removed item stays the last active item.

## Model

| member | source | states |
|---|---|---|
| Decimal.ParseShow | src/js/utils.js:62-64 | reading the printed timestamp back gives the timestamp, so the identifier text determines the clock reading |
| Utils.GenerateId | src/js/utils.js:62-64 | the identifier is all digits and reads back as the clock reading it was made from |
| Utils.GenerateIdDistinct | src/js/utils.js:57-64 | creations at different clock readings get different identifiers |
| Utils.GenerateIdFresh | src/js/utils.js:62-64 | an identifier made at a later clock reading than every listed identifier is none of them |
| Utils.FindNotebook | src/js/utils.js:74-77 | gives nothing exactly when no notebook has the identifier; otherwise a notebook of the list with that identifier |
| Utils.FindNotebookIndex | src/js/utils.js:89-91 | -1 exactly when no notebook has the identifier; otherwise the first index holding it |
| Utils.FindNotebookAgrees | src/js/utils.js:74-91 | the notebook `findNotebook` returns is the one at the index `findNotebookIndex` returns |
| Utils.FirstNote | src/js/utils.js:134 | `find` on one notebook's notes gives nothing exactly when no note has the identifier; otherwise a note of that list with it |
| Utils.FindNoteIndex | src/js/utils.js:148-150 | -1 exactly when no note of the notebook has the identifier; otherwise the first index holding it |
| Utils.FirstNoteAgrees | src/js/utils.js:131-150 | `find` and `findIndex` on one notebook's notes pick the same note |
| Utils.FindNote | src/js/utils.js:131-138 | gives nothing exactly when no note in any notebook has the identifier; otherwise a note with it that lies in some notebook's notes |
| Utils.LocateNote | src/js/utils.js:131-138 | the position scanned first (notebooks in order, then notes in order) holding the identifier, or nothing exactly when there is none |
| Utils.FindNoteLocates | src/js/utils.js:131-138 | `findNote` returns exactly the note at that first position, so the scan stops at the first hit |
| Utils.Ago | src/js/utils.js:116-119 | the label is the count in decimal (it reads back as the count), a space, the unit, an "s" exactly when the count is above 1, then " ago" |
| Utils.RelativeTime | src/js/utils.js:99-121 | "Just now" exactly when less than a whole minute has elapsed, including timestamps in the future |
| Utils.RelativeTimeByElapsed | src/js/utils.js:101-119 | under an hour: whole minutes; under a day: whole hours; otherwise whole days. The unit gets "s" exactly when the count exceeds 1, then " ago" |
| Utils.AgoLabels | src/js/utils.js:113-119 | the labels read "1 min ago", "2 hours ago" and "2 days ago": a count above one takes the plural |
| Utils.RelativeTimeExamples | src/js/utils.js:113-119 | 30 s gives "Just now", 90 s "1 min ago", 2 h "2 hours ago", 2 days "2 days ago" |
| Utils.GreetingMsg | src/js/utils.js:27-36 | "Good Night" exactly before 5 or from 20; "Good Morning" on [5,12); "Good Noon" on [12,15); "Good Evening" on [15,20) |
| ArrayOps.SpliceOne | src/js/db.js:216 | an in-range index removes exactly that element and keeps the order of the rest; -1 removes the last element; an empty list stays empty |
| Store.InitDB | src/js/db.js:18-28 | after start-up a document is stored and reading it gives the in-memory document; an existing one is kept; with none stored, the empty document is stored |
| Store.PostNotebook | src/js/db.js:75-89 | appends `{id, name, notes: []}` at the end; earlier notebooks are unchanged and in order; fails (storing nothing) only when no document is stored |
| Store.PostNote | src/js/db.js:99-113 | the new note gets the generated id, the argument as `notebookId`, the payload's title/text and the creation time, and goes first in the first notebook with that id; other notebooks are untouched; a missing notebook fails before any write |
| Store.GetNotebooks | src/js/db.js:123-127 | returns the stored notebooks and stores nothing |
| Store.GetNotes | src/js/db.js:137-141 | returns the notes of the first notebook with the identifier; fails exactly when there is none; stores nothing |
| Store.UpdateNotebook | src/js/db.js:154-163 | only `name` of the first matching notebook changes; its id and notes and all other notebooks stay; a missing notebook fails before any write |
| Store.Merge | src/js/db.js:176 | supplied fields overwrite; id, notebookId, postedOn and unsupplied title/text are kept |
| Store.UpdateNote | src/js/db.js:172-180 | the first note with the identifier (notebooks in order) is merged in place; everything else stays; a missing note fails before any write |
| Store.DeleteNotebook | src/js/db.js:191-199 | removes the first notebook with the identifier; with none, removes the last notebook (an empty list stays empty) |
| Store.DeleteNote | src/js/db.js:210-221 | returns the notebook's remaining notes: the first match removed, or the last note when there is no match; only that notebook changes; a missing notebook fails before any write |
| StoreProperties.NotebookCreationOrder | src/js/db.js:84 | creating b1 then b2 lists `[..., b1, b2]` |
| StoreProperties.NoteCreationOrder | src/js/db.js:109 | creating n1 then n2 in one notebook lists `[n2, n1, ...]` |
| StoreProperties.PostNoteReadBack | src/js/db.js:99-113 | after a note is created, listing its notebook gives the new note followed by the earlier notes |
| StoreProperties.UpdateNotebookReadBack | src/js/db.js:154-163 | after a rename, looking the notebook up in storage gives exactly the returned notebook |
| StoreProperties.UpdateNoteReadBack | src/js/db.js:172-180 | after an edit, looking the note up in storage gives exactly the returned note |
| StoreProperties.DeleteNoteReadBack | src/js/db.js:210-221 | after a note delete, listing the notebook from storage gives exactly the returned remaining notes |
| StoreProperties.TitleOnlyEdit | src/js/db.js:176 | an edit supplying only a title sets it and keeps text, postedOn, notebookId and id |
| StoreProperties.DeleteNotebookCascades | src/js/db.js:191-199 | in a well-formed document, deleting an existing notebook removes one notebook and all its notes; listing its notes then fails |
| StoreProperties.PostNotebookKeepsWellFormed | src/js/db.js:78-84 | with a fresh identifier, containment and unique ids survive notebook creation |
| StoreProperties.PostNotebookLaterKeepsWellFormed | src/js/db.js:78-84 | when every stored notebook identifier was made at an earlier clock reading, creating a notebook keeps the document well-formed |
| StoreProperties.PostNoteKeepsWellFormed | src/js/db.js:103-109 | with a fresh identifier, containment and unique ids survive note creation |
| StoreProperties.UpdateNotebookKeepsWellFormed | src/js/db.js:157-158 | a rename keeps the document well-formed |
| StoreProperties.UpdateNoteKeepsWellFormed | src/js/db.js:175-176 | an edit keeps the document well-formed |
| StoreProperties.DeleteNotebookKeepsWellFormed | src/js/db.js:194-195 | a notebook delete keeps the document well-formed, with or without a match |
| StoreProperties.SpliceKeepsWellFormed | src/js/db.js:194-195 | `splice` at a found index, or at -1, leaves well-formed notebooks well-formed |
| StoreProperties.DeleteNoteKeepsWellFormed | src/js/db.js:213-216 | a note delete keeps the document well-formed, with or without a match |
| View.ActiveNotebook | src/js/utils.js:42-46 | the just-activated item is the single active one; nothing else on the page changes |
| View.NavIndex | src/js/client.js:88 | -1 exactly when no sidebar item has the identifier; otherwise the first one that does |
| View.CreateNotebook | src/js/client.js:52-59 | the item is appended; it becomes the sole active item; the title is the name; the panel is the placeholder; creation is enabled |
| View.ReadNotebooks | src/js/client.js:66-78 | items are appended in list order; creation is enabled exactly when the list is non-empty; a non-empty list makes its first entry active and the title; an empty one activates nothing |
| View.UpdateNotebook | src/js/client.js:87-95 | the title is always set; the item is replaced at the same position and made active; the other items and the sidebar length stay; a missing item throws after the title is set |
| View.ReadNotes | src/js/client.js:145-160 | a non-empty list becomes exactly the cards in order; an empty list shows the placeholder |
| View.Select | src/js/client.js:105-108 | clicking an item makes it active, shows its name and renders its notes |
| View.Sibling | src/js/client.js:105 | the next item if there is one, else the previous one; none exactly when the deleted item was alone |
| View.DeleteNotebook | src/js/client.js:103-116 | the item is removed; the next (else previous) item is selected, with its name as the title and its notes (or the placeholder) in the panel; with neither, the title and panel are cleared and creation is disabled; a missing item throws before any change |
| View.CreateNote | src/js/client.js:131-138 | the new card goes first, ahead of exactly the cards shown before (none when the placeholder was shown) |
| View.UpdateNote | src/js/client.js:168-172 | the first card of the note is replaced in place; card count, the other cards, the sidebar, title and create buttons are unchanged; no such card throws |
| View.DeleteNote | src/js/client.js:180-183 | exactly the first card of the note is removed; a remaining count of 0 shows the placeholder; sidebar, title and create buttons are unchanged; no such card throws |
| Sync.NavIndexMatches | src/js/client.js:88 | when the sidebar lists the notebooks, the page lookup finds the position the store's `findNotebookIndex` finds |
| Sync.StartupSyncs | src/js/client.js:66-78 | loading the stored notebooks into an empty sidebar lists them all, with the first one active |
| Sync.CreateNotebookSyncs | src/js/client.js:52-59 | store create plus view create keeps the sidebar equal to the stored notebooks; the new notebook is active and its empty notes show as the placeholder |
| Sync.RenameNotebookSyncs | src/js/client.js:87-95 | store rename plus view update keeps the sidebar in step; the title is the new name and the notebook is active |
| Sync.DeleteNotebookSyncs | src/js/client.js:103-116 | store delete plus view delete keeps the sidebar in step; the notebook now at the deleted position (else the new last one) is selected; with none left, the title is cleared and creation is disabled |
| Sync.CreateNoteSyncs | src/js/client.js:131-138 | store create plus view create keeps the panel showing exactly the stored notes of the open notebook |
| Sync.ReadNotesSyncs | src/js/client.js:145-160 | opening a notebook shows exactly its stored notes, or the placeholder |
| Sync.EditInOpenNotebook | src/js/db.js:172-180 | editing a note that only the open notebook holds succeeds and changes that notebook's listing at the note's position only |
| Sync.UpdateNoteSyncs | src/js/client.js:168-172 | editing a note of the open notebook (owned by no other notebook) keeps the panel showing exactly the stored notes |
| Sync.DeleteNoteSyncs | src/js/components/Card.js:101-105 | deleting a note of the open notebook leaves one note fewer, and the panel shows exactly the stored remainder, or the placeholder when none remain |
| Scenario.WorkNotebookStore | src/js/db.js:99-221 | from empty storage: "Work" holds no notes; A gives [A]; B gives [B, A]; deleting A returns [B]; deleting B returns [] |
| Scenario.WorkNotebookView | src/js/client.js:131-183 | the panel goes placeholder, [A], [B, A], [B], then back to the placeholder |

## Left out

- `localStorage` and `JSON.stringify`/`JSON.parse` become an abstract stored `Option<Document>`. The JSON round trip is taken to be the identity.
- `readDB`/`writeDB` are the plain functions `Store.ReadDB`/`Store.WriteDB`. They are not in the table because their only content is the load and the save; the operations' contracts state what they persist.
- Clock calls (`new Date().getTime()`) are parameters. Identifier collisions at equal clock readings are a documented limitation, not a guarded invariant. `Utils.GenerateIdDistinct` states when they cannot happen.
- `getRelativeTime` divides floating-point numbers and then floors. The model floor-divides whole milliseconds.
- Numbers are printed in plain decimal. JavaScript prints exponent notation at 10^21 and above, which timestamps and minute counts never reach.
- The `...object` spread in `db.post.note` and `Object.assign` in `db.update.note` could copy any field. The payload is modelled with only an optional `title` and `text`. A payload that overrides `id`, `notebookId` or `postedOn` is not modelled.
- NavItem, Card, Modal and Tooltip (HTML templating, listeners, tooltip and modal wiring) are not modelled. A card is the note it shows, and a navigation item is `{id, name}`. NavItem.js is not part of this model. Its click handler is modelled as `View.Select`: mark active, show the name as title, render the notebook's notes. The notes it loads are a parameter.
- `disableNoteCreateBtns` is the `createEnabled` flag.
- `addEventOnElements`, `makeElemEditable` and the `document.querySelector` mechanics are left out. Page lookups become first-match searches over the sidebar and the panel, which are taken to hold only navigation items and cards.
- Cross-tab concurrency, last-write-wins races and the aliasing of returned live arrays are out of scope. In a value model they do not arise.
- The edit synchronisation lemma (`Sync.UpdateNoteSyncs`) holds only when no other notebook holds a note with the same identifier. `findNote` searches all notebooks, so this is stated as a precondition.
