/**
 * The note record of the application and the three "spread" updates the
 * handlers apply to it (`{ ...note, field, updatedAt: Date.now() }`).
 * Timestamps are milliseconds read from the browser clock, hence `nat`.
 */
module Notes {

  datatype Option<T> = None | Some(value: T)

  datatype Note = Note(
    id: string,
    title: string,
    content: string,
    createdAt: nat,
    updatedAt: nat,
    isFavorite: bool)

  /** The title every freshly created note gets. */
  const DefaultTitle: string := "New Note"

  /** The note the save handler writes: the buffer becomes the content. */
  function WithContent(n: Note, buffer: string, now: nat): (r: Note)
    ensures r.content == buffer && r.updatedAt == now
    ensures r.id == n.id && r.title == n.title
    ensures r.createdAt == n.createdAt && r.isFavorite == n.isFavorite
  {
    n.(content := buffer, updatedAt := now)
  }

  /** The note the title handler writes, both in the list and in the store. */
  function WithTitle(n: Note, title: string, now: nat): (r: Note)
    ensures r.title == title && r.updatedAt == now
    ensures r.id == n.id && r.content == n.content
    ensures r.createdAt == n.createdAt && r.isFavorite == n.isFavorite
  {
    n.(title := title, updatedAt := now)
  }

  /** The note the favourite handler writes: the flag is SET to the argument. */
  function WithFavorite(n: Note, isFavorite: bool, now: nat): (r: Note)
    ensures r.isFavorite == isFavorite && r.updatedAt == now
    ensures r.id == n.id && r.title == n.title
    ensures r.content == n.content && r.createdAt == n.createdAt
  {
    n.(isFavorite := isFavorite, updatedAt := now)
  }

  /** Setting the favourite flag twice to the same value leaves it at that value. */
  lemma FavoriteTwice(n: Note, isFavorite: bool, t1: nat, t2: nat)
    ensures WithFavorite(WithFavorite(n, isFavorite, t1), isFavorite, t2)
            == WithFavorite(n, isFavorite, t2)
  {
  }

  /**
   * Un-favouriting after favouriting (or the reverse) gives back the original
   * note except for the timestamp of the second write.
   */
  lemma FavoriteRoundTrip(n: Note, t1: nat, t2: nat)
    ensures WithFavorite(WithFavorite(n, !n.isFavorite, t1), n.isFavorite, t2)
            == n.(updatedAt := t2)
  {
  }
}
