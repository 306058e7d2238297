/**
 * The state of the application component and its event handlers.
 *
 * The four React state cells become fields; the durable store is an object
 * the component holds. Each handler is one atomic step: its awaits are taken
 * to complete in program order. Effects the handlers read from the browser
 * are parameters: the clock (`Date.now()`, one parameter per read), the
 * generated id (`uuidv4()`) and the answer of the confirmation dialog.
 */
module NoteApp {
  import opened Notes
  import opened NoteList
  import opened NoteStorage

  /** What the list shows after a reload: each stored note exactly once. */
  ghost predicate ListsStore(notes: seq<Note>, entries: map<string, Note>) {
    multiset(notes) == multiset(entries.Values)
  }

  /** A listed note is the note the store holds under its id. */
  lemma ListedNoteIsStored(notes: seq<Note>, entries: map<string, Note>, i: nat)
    requires WellKeyed(entries) && ListsStore(notes, entries) && i < |notes|
    ensures notes[i].id in entries && entries[notes[i].id] == notes[i]
  {
    assert notes[i] in multiset(notes);
  }

  class App {
    const store: NoteStore
    var notes: seq<Note>
    var selectedNote: Option<Note>
    var content: string
    var hasChanges: bool

    /** The store files each note under its id; the list is always ordered. */
    ghost predicate Valid()
      reads this, store
    {
      store.Valid() && Sorted(notes)
    }

    /** Mounting the component: empty state, then the first `loadNotes`. */
    constructor (s: NoteStore)
      requires s.Valid()
      ensures Valid() && store == s
      ensures store.entries == old(s.entries)
      ensures ListsStore(notes, store.entries)
      ensures selectedNote == None && content == "" && !hasChanges
    {
      store := s;
      notes := [];
      selectedNote := None;
      content := "";
      hasChanges := false;
      new;
      LoadNotes();
    }

    /** `loadNotes`: fetch every stored note and sort with the comparator. */
    method LoadNotes()
      requires Valid()
      modifies this`notes
      ensures Valid()
      ensures ListsStore(notes, store.entries)
      ensures FavoritesFirst(notes) && NewestFirstInGroup(notes)
    {
      var loaded := store.GetAllNotes();
      notes := SortNotes(loaded);
      SortNotesSorted(loaded);
    }

    /** `handleNoteSelect`: any unsaved buffer is dropped. */
    method SelectNote(note: Note)
      requires Valid()
      modifies this`selectedNote, this`content, this`hasChanges
      ensures Valid()
      ensures selectedNote == Some(note) && content == note.content && !hasChanges
    {
      selectedNote := Some(note);
      content := note.content;
      hasChanges := false;
    }

    /** `handleContentChange`: the editor reports a new document. */
    method ChangeContent(newContent: string)
      requires Valid()
      modifies this`content, this`hasChanges
      ensures Valid()
      ensures content == newContent && hasChanges
    {
      content := newContent;
      hasChanges := true;
    }

    /**
     * `handleSave`: write the selected note with the buffer as its content.
     * The selected note itself is not refreshed.
     */
    method Save(now: nat)
      requires Valid()
      modifies this`notes, this`hasChanges, store
      ensures Valid()
      ensures selectedNote == old(selectedNote) && content == old(content)
      ensures old(selectedNote).None? ==>
                store.entries == old(store.entries) && notes == old(notes)
                && hasChanges == old(hasChanges)
      ensures old(selectedNote).Some? ==>
                && store.entries == Upsert(old(store.entries), WithContent(old(selectedNote).value, old(content), now))
                && !hasChanges
                && ListsStore(notes, store.entries)
    {
      if selectedNote.None? {
        return;
      }
      var updated := WithContent(selectedNote.value, content, now);
      store.SaveNote(updated);
      hasChanges := false;
      LoadNotes();
    }

    /** The Ctrl/Cmd+S listener: saves only a selected note with changes. */
    method SaveShortcut(now: nat)
      requires Valid()
      modifies this`notes, this`hasChanges, store
      ensures Valid()
      ensures selectedNote == old(selectedNote) && content == old(content)
      ensures !(old(selectedNote).Some? && old(hasChanges)) ==>
                store.entries == old(store.entries) && notes == old(notes)
                && hasChanges == old(hasChanges)
      ensures old(selectedNote).Some? && old(hasChanges) ==>
                && store.entries == Upsert(old(store.entries), WithContent(old(selectedNote).value, old(content), now))
                && !hasChanges
                && ListsStore(notes, store.entries)
    {
      if selectedNote.Some? && hasChanges {
        Save(now);
      }
    }

    /**
     * `handleNoteDelete`: only after confirmation. The buffer is cleared only
     * when the deleted note was selected; the dirty flag is left alone.
     */
    method DeleteNote(id: string, confirmed: bool)
      requires Valid()
      modifies this`notes, this`selectedNote, this`content, store
      ensures Valid()
      ensures hasChanges == old(hasChanges)
      ensures !confirmed ==>
                && store.entries == old(store.entries) && notes == old(notes)
                && selectedNote == old(selectedNote) && content == old(content)
      ensures confirmed ==>
                && store.entries == Remove(old(store.entries), id)
                && ListsStore(notes, store.entries)
      ensures confirmed && old(selectedNote).Some? && old(selectedNote).value.id == id ==>
                selectedNote == None && content == ""
      ensures !(old(selectedNote).Some? && old(selectedNote).value.id == id) ==>
                selectedNote == old(selectedNote) && content == old(content)
    {
      if !confirmed {
        return;
      }
      store.DeleteNote(id);
      if selectedNote.Some? && selectedNote.value.id == id {
        selectedNote := None;
        content := "";
      }
      LoadNotes();
    }

    /**
     * `handleNoteFavorite`: re-read the note from the store and set its flag
     * to the given value. An id missing from the store is ignored.
     */
    method SetFavorite(id: string, isFavorite: bool, now: nat)
      requires Valid()
      modifies this`notes, store
      ensures Valid()
      ensures id !in old(store.entries) ==>
                store.entries == old(store.entries) && notes == old(notes)
      ensures id in old(store.entries) ==>
                && store.entries == Upsert(old(store.entries), WithFavorite(old(store.entries)[id], isFavorite, now))
                && ListsStore(notes, store.entries)
    {
      var note := store.GetNote(id);
      if note.None? {
        return;
      }
      var updated := WithFavorite(note.value, isFavorite, now);
      store.SaveNote(updated);
      LoadNotes();
    }

    /**
     * `handleNoteTitleChange`: first the selected note and the list (renamed
     * and re-sorted), then the store, which gets the STORED note renamed.
     * Each of the three `Date.now()` reads is its own parameter.
     */
    method ChangeTitle(id: string, newTitle: string, selectedNow: nat, listNow: nat, storeNow: nat)
      requires Valid()
      modifies this`selectedNote, this`notes, store
      ensures Valid()
      ensures content == old(content) && hasChanges == old(hasChanges)
      ensures old(selectedNote).Some? && old(selectedNote).value.id == id ==>
                selectedNote == Some(WithTitle(old(selectedNote).value, newTitle, selectedNow))
      ensures !(old(selectedNote).Some? && old(selectedNote).value.id == id) ==>
                selectedNote == old(selectedNote)
      ensures notes == RetitleList(old(notes), id, newTitle, listNow)
      ensures id !in old(store.entries) ==> store.entries == old(store.entries)
      ensures id in old(store.entries) ==>
                store.entries == Upsert(old(store.entries), WithTitle(old(store.entries)[id], newTitle, storeNow))
    {
      if selectedNote.Some? && selectedNote.value.id == id {
        selectedNote := Some(WithTitle(selectedNote.value, newTitle, selectedNow));
      }
      notes := RetitleList(notes, id, newTitle, listNow);
      var note := store.GetNote(id);
      if note.None? {
        return;
      }
      var updated := WithTitle(note.value, newTitle, storeNow);
      store.SaveNote(updated);
    }

    /**
     * `createNewNote`: a fresh note is stored, selected and loaded into an
     * empty buffer. The dirty flag is left alone. The two timestamps come
     * from two clock reads, the second no earlier than the first.
     */
    method CreateNewNote(freshId: string, createdNow: nat, updatedNow: nat)
      requires Valid()
      requires freshId !in store.entries
      requires createdNow <= updatedNow
      modifies this`notes, this`selectedNote, this`content, store
      ensures Valid()
      ensures hasChanges == old(hasChanges)
      ensures selectedNote.Some?
      ensures var n := selectedNote.value;
                && n.id == freshId && n.id !in old(store.entries)
                && n.title == DefaultTitle && n.content == "" && !n.isFavorite
                && n.createdAt == createdNow && n.updatedAt == updatedNow
                && n.createdAt <= n.updatedAt
                && store.entries == Upsert(old(store.entries), n)
      ensures content == ""
      ensures ListsStore(notes, store.entries)
    {
      var created := Note(freshId, DefaultTitle, "", createdNow, updatedNow, false);
      store.SaveNote(created);
      selectedNote := Some(created);
      content := "";
      LoadNotes();
    }
  }
}
