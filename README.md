# Note list state of a browser note-taking app, in Dafny

The application shows a sidebar list of notes and an editor for the selected
one, backed by a local key-value note store. Its only state logic lives in the
top-level `App` component: four state cells (`notes`, `selectedNote`,
`content`, `hasChanges`), one sort comparator, and seven event handlers that
move that state and write the store. This project models that logic and
proves what each handler does to the state and the store.

- `notes.dfy` (module `Notes`): the `Note` record, whose fields are inferred
  from the literal built in `createNewNote`. It also holds the three
  "spread" updates the handlers apply, one each for content, title and
  favourite flag, and each one also stamps `updatedAt`.
- `note_list.dfy` (module `NoteList`): the comparator passed to
  `Array.prototype.sort`, a stable insertion sort standing for the built-in
  sort, and the `notes.map` title rewrite. It holds the proofs that the
  sorted list puts favourites first and newest first within each group, that
  it is a permutation, and that both paths that sort use the same ordering.
- `note_storage.dfy` (module `NoteStorage`): the store imported from
  `./utils/noteStorage`. That module is not part of this model. Its
  behaviour, as the application relies on it, is stated as a
  `map<string, Note>` keyed by id:
  - `saveNote` is an upsert.
  - `deleteNote` removes the id.
  - `getNote` returns an optional note.
  - `getAllNotes` returns every stored note once, in an order the store
    chooses.
- `app.dfy` (module `NoteApp`): class `App`, with the four state cells as
  fields and the store as a constant reference. Each handler is a method
  with a field-level `modifies` frame. The class invariant is that the store
  files every note under its own id and that the list is always sorted.
- `scenarios.dfy` (module `Scenarios`): client sessions that drive the
  handlers through their contracts only. They cover favouriting, saving,
  switching notes with unsaved edits, and a save that undoes a favourite.

Effects the handlers read from the browser become parameters:
- `Date.now()` becomes one `nat` parameter per read. Title change reads the
  clock at three places, each read guarded. Create reads it twice, and the
  second read is required to be no earlier than the first.
- The title rewrite of the list reads the clock once per matching entry;
  the model gives every matching entry the same reading. At most one entry
  matches in practice: a reload lists each stored note once under its own
  id, and a rename keeps the multiset of ids.
- `uuidv4()` becomes a fresh-id parameter, required not to be in the store.
- `window.confirm` becomes a `confirmed: bool` parameter.

In these places the handlers do less than their names suggest, and the
model follows the code:
- The favourite handler sets the flag to its argument; it does not flip it.
- Creating a note does not reset the dirty flag.
- A created note's two timestamps come from two clock reads, so only
  `createdAt <= updatedAt` is guaranteed, not equality.
- Saving does not refresh the selected note. Favouriting does not refresh it
  either. So favouriting the selected note, editing it and saving writes the
  stale flag back to the store, and the favourite is lost. The scenario
  `SaveRevertsFavorite` shows this from the contracts.
- Deleting leaves the dirty flag as it was.

## Model

| member | source | states |
|---|---|---|
| `Notes.WithContent` | src/App.tsx:61-65 | the saved note carries the buffer as content and `now` as `updatedAt`; id, title, createdAt and favourite flag are those of the selected note |
| `Notes.WithTitle` | src/App.tsx:129-133 | a renamed note has the new title and `now` as `updatedAt`; id, content, createdAt and favourite flag are kept |
| `Notes.WithFavorite` | src/App.tsx:91-95 | the favourite flag is set to the argument (not flipped) and `updatedAt` is `now`; id, title, content and createdAt are kept |
| `Notes.FavoriteTwice` | src/App.tsx:87-99 | setting the flag twice to the same value equals setting it once (with the later timestamp) |
| `Notes.FavoriteRoundTrip` | src/App.tsx:91-95 | favouriting then un-favouriting (or the reverse) gives back the original note except for `updatedAt` |
| `NoteList.Compare` | src/App.tsx:36-43 | the comparator is negative exactly when `a` is a favourite and `b` is not, or both are in the same group and `a` is newer; it is zero exactly when group and `updatedAt` agree |
| `NoteList.CompareFlip` | src/App.tsx:38-42 | swapping the comparator's arguments negates its result |
| `NoteList.PrecedesTotalPreorder` | src/App.tsx:36-43 | "may stand before" is total and transitive, so the comparator is a consistent one for sorting |
| `NoteList.SortedIsPolicy` | src/App.tsx:35-43 | a list is ordered by the comparator if and only if every favourite precedes every non-favourite and `updatedAt` is non-increasing inside each group |
| `NoteList.Insert` | src/App.tsx:36-43 | inserting adds exactly the one note to the multiset of the list |
| `NoteList.SortNotes` | src/App.tsx:36-43 | sorting returns a permutation of its input |
| `NoteList.InsertSorted` | src/App.tsx:36-43 | inserting into an ordered list keeps it ordered |
| `NoteList.SortNotesSorted` | src/App.tsx:33-44 | the sorted list is ordered: favourites first, newest first within each group |
| `NoteList.SortNotesIds` | src/App.tsx:117-123 | sorting keeps the multiset of ids |
| `NoteList.RenameInList` | src/App.tsx:112-116 | the title rewrite keeps the length of the list |
| `NoteList.RenameInListAt` | src/App.tsx:112-116 | position by position, an entry with the matching id gets the new title and timestamp and every other entry is untouched |
| `NoteList.RenameInListIds` | src/App.tsx:112-116 | the rewrite keeps the id at every position |
| `NoteList.RetitleList` | src/App.tsx:111-123 | the list after a rename is the rewritten list re-sorted with the reload's comparator: same length, same multiset of ids, favourites first and newest first within each group |
| `NoteStorage.Upsert` | src/App.tsx:8-13 | `saveNote` files the note under its id, keeps every other entry and adds no other key |
| `NoteStorage.Remove` | src/App.tsx:79 | `deleteNote` drops exactly the given id and keeps every other entry |
| `NoteStorage.UpsertIdempotent` | src/App.tsx:8-13 | saving the same note twice leaves the store as saving it once |
| `NoteStorage.RemoveAbsent` | src/App.tsx:79 | deleting an id that is not stored changes nothing |
| `NoteStorage.NoteStore.SaveNote` | src/App.tsx:67 | the store after `saveNote` is the upsert of the note; ids stay keys of their own notes |
| `NoteStorage.NoteStore.DeleteNote` | src/App.tsx:79 | the store after `deleteNote` is the old store without the id |
| `NoteStorage.NoteStore.GetNote` | src/App.tsx:88-89 | `getNote` returns a note exactly when the id is stored, and then the stored note, whose id is the one asked for |
| `NoteStorage.NoteStore.GetAllNotes` | src/App.tsx:34 | `getAllNotes` returns every stored note exactly once (as a multiset, the store's values) |
| `NoteApp.ListedNoteIsStored` | src/App.tsx:33-44 | every note of a freshly loaded list is the note the store holds under its id |
| `NoteApp.App.constructor` | src/App.tsx:22-31 | on mount nothing is selected, the buffer is empty, the flag is clean, and the list is the sorted content of the store |
| `NoteApp.App.LoadNotes` | src/App.tsx:33-45 | after a reload the list is a permutation of the store's notes with favourites first and newest first within each group; nothing else changes |
| `NoteApp.App.SelectNote` | src/App.tsx:47-51 | select sets the selection to the note, the buffer to its content and clears the dirty flag; list and store are unchanged |
| `NoteApp.App.ChangeContent` | src/App.tsx:53-56 | an edit sets the buffer and marks it dirty; nothing else changes |
| `NoteApp.App.Save` | src/App.tsx:58-71 | without a selection nothing changes; otherwise the store entry of the selected id becomes the selected note with the buffer and `now`, every other entry is kept, the flag is cleared, the list is reloaded, and the selection and buffer stay as they were |
| `NoteApp.App.SaveShortcut` | src/App.tsx:155-161 | the shortcut saves exactly when a note is selected and the buffer is dirty, and otherwise changes nothing |
| `NoteApp.App.DeleteNote` | src/App.tsx:73-85 | unconfirmed, nothing changes; confirmed, the id leaves the store and all other entries stay, the list is reloaded, selection and buffer are cleared only if the deleted note was selected, and the dirty flag is never touched |
| `NoteApp.App.SetFavorite` | src/App.tsx:87-99 | an id missing from the store is ignored; otherwise the stored note (not the cached one) is rewritten with the given flag and `now`, and the list is reloaded |
| `NoteApp.App.ChangeTitle` | src/App.tsx:101-136 | the selection is renamed only if its id matches; the list is renamed and re-sorted; the store gets the stored note (with its stored content, not the buffer) renamed, or is left alone if the id is absent; buffer and flag are untouched |
| `NoteApp.App.CreateNewNote` | src/App.tsx:138-152 | a note with the fresh id, title "New Note", empty content, not favourite and `createdAt <= updatedAt` is stored and selected; the buffer becomes empty, the list is reloaded, and the dirty flag is kept |
| `Scenarios.OrderedPair` | src/App.tsx:36-43 | in an ordered listing of one favourite and one non-favourite, the favourite comes first |

## Left out

- The sidebar component (`src/components/AppSidebar.tsx`) is view markup:
  animation, relative-date formatting and click-to-callback wiring. Its split
  of the list into a favourites section and an all-notes section is display
  only.
- The toolbar and the rich-text editor commands are thin calls into an
  editor library that is not part of this model. So is `editor.commands.focus()`
  after a save.
- Registering and removing the keydown listener, matching the key, and
  `preventDefault` are left out. Only the guard on selection and dirty flag
  is modelled (`SaveShortcut`).
- Asynchrony is not modelled. Each handler is one atomic step. The
  un-awaited `saveNote` in `createNewNote`, and a store write still in flight
  when the selection changes, are taken to finish in program order.
- Store failures (rejected promises) are not modelled. Neither are the
  internals of `./utils/noteStorage`, beyond the map semantics above.
- `Date.now()`, `uuidv4()` and `window.confirm` are parameters. So clock
  monotonicity is assumed only where a handler reads the clock twice
  (`CreateNewNote`). Nothing ties a handler's clock reading to the
  timestamps already stored. So `updatedAt >= createdAt` for stored notes is
  not an invariant of the model, and the code does not enforce it either.
- NoteApp.App.LoadNotes: does not fix the relative order of notes that
  compare equal (same group, same `updatedAt`). That order follows the order
  of `getAllNotes`, which the store does not specify.
- NoteList.SortNotes: stability of the sort is built into the definition but
  is not stated as a proved property.
