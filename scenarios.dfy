/**
 * Client sessions that use the handlers only through their contracts, as a
 * user of the application would drive them.
 */
module Scenarios {
  import opened Notes
  import opened NoteStorage
  import opened NoteList
  import opened NoteApp

  /** An ordered listing of a favourite and a non-favourite puts the favourite first. */
  lemma OrderedPair(s: seq<Note>, fav: Note, other: Note)
    requires fav.isFavorite && !other.isFavorite
    requires multiset(s) == multiset{fav, other} && Sorted(s)
    ensures s == [fav, other]
  {
  }

  /** Two notes, the second favourited: it is listed first. */
  method FavoriteComesFirst(id1: string, id2: string)
    requires id1 != id2
  {
    var s := new NoteStore();
    var app := new App(s);
    app.CreateNewNote(id1, 10, 10);
    app.CreateNewNote(id2, 20, 20);
    app.SetFavorite(id2, true, 30);
    var n1 := Note(id1, DefaultTitle, "", 10, 10, false);
    var n2 := Note(id2, DefaultTitle, "", 20, 30, true);
    assert s.entries == map[id1 := n1, id2 := n2];
    assert s.entries.Values == {n2, n1};
    OrderedPair(app.notes, n2, n1);
    assert app.notes == [n2, n1];
  }

  /** Create, edit, save: the store holds the edited content. */
  method EditAndSave(id: string)
  {
    var s := new NoteStore();
    var app := new App(s);
    app.CreateNewNote(id, 5, 5);
    app.ChangeContent("hello");
    app.SaveShortcut(9);
    assert s.entries[id] == Note(id, DefaultTitle, "hello", 5, 9, false);
    assert !app.hasChanges;
  }

  /** An edit abandoned by selecting another note never reaches the store. */
  method SwitchDiscardsEdit(id1: string, id2: string)
    requires id1 != id2
  {
    var s := new NoteStore();
    var app := new App(s);
    app.CreateNewNote(id1, 1, 1);
    app.CreateNewNote(id2, 2, 2);
    var n1 := s.entries[id1];
    app.SelectNote(n1);
    app.ChangeContent("draft");
    app.SelectNote(s.entries[id2]);
    assert s.entries[id1] == n1 && n1.content == "";
    assert app.content == "" && !app.hasChanges;
  }

  /**
   * Favouriting the selected note does not refresh the selection, so a later
   * save writes the stale flag back: the favourite is lost.
   */
  method SaveRevertsFavorite(id: string)
  {
    var s := new NoteStore();
    var app := new App(s);
    app.CreateNewNote(id, 1, 1);
    app.SetFavorite(id, true, 2);
    assert s.entries[id].isFavorite;
    app.ChangeContent("edited");
    app.SaveShortcut(3);
    assert !s.entries[id].isFavorite;
  }
}
