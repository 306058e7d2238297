/**
 * The ordering policy of the note list and the title rewrite of the list.
 *
 * The application hands one comparator to `Array.prototype.sort`, both when
 * it reloads the list and when it renames a note: favourites first, and
 * within each group the most recently updated note first. The built-in sort
 * is stable; it is modelled here by a stable insertion sort.
 */
module NoteList {
  import opened Notes

  /** The comparator: negative when `a` must come before `b`. */
  function Compare(a: Note, b: Note): (c: int)
    ensures c < 0 <==>
              || (a.isFavorite && !b.isFavorite)
              || (a.isFavorite == b.isFavorite && a.updatedAt > b.updatedAt)
    ensures c == 0 <==> a.isFavorite == b.isFavorite && a.updatedAt == b.updatedAt
  {
    if a.isFavorite == b.isFavorite then b.updatedAt - a.updatedAt
    else if a.isFavorite then -1 else 1
  }

  /** `a` may stand before `b` in an ordered list. */
  predicate Precedes(a: Note, b: Note) {
    Compare(a, b) <= 0
  }

  /** The list is ordered by the comparator. */
  predicate Sorted(s: seq<Note>) {
    forall i, j :: 0 <= i < j < |s| ==> Precedes(s[i], s[j])
  }

  /** Every favourite stands before every non-favourite. */
  predicate FavoritesFirst(s: seq<Note>) {
    forall i, j :: 0 <= i < j < |s| && s[j].isFavorite ==> s[i].isFavorite
  }

  /** Inside each favourite group, `updatedAt` does not increase. */
  predicate NewestFirstInGroup(s: seq<Note>) {
    forall i, j ::
      0 <= i < j < |s| && s[i].isFavorite == s[j].isFavorite ==> s[i].updatedAt >= s[j].updatedAt
  }

  /** The comparator is antisymmetric: swapping the arguments negates it. */
  lemma CompareFlip(a: Note, b: Note)
    ensures Compare(a, b) == -Compare(b, a)
  {
  }

  /** `Precedes` is a total preorder. */
  lemma PrecedesTotalPreorder(a: Note, b: Note, c: Note)
    ensures Precedes(a, b) || Precedes(b, a)
    ensures Precedes(a, b) && Precedes(b, c) ==> Precedes(a, c)
  {
  }

  /** Being ordered by the comparator is exactly the two-part ordering policy. */
  lemma SortedIsPolicy(s: seq<Note>)
    ensures Sorted(s) <==> FavoritesFirst(s) && NewestFirstInGroup(s)
  {
  }

  /**
   * Places `x` before the first element that does not strictly precede it.
   * Used with an `x` that stood before all of `t`, so equal elements keep
   * their original order.
   */
  function Insert(x: Note, t: seq<Note>): (r: seq<Note>)
    ensures multiset(r) == multiset{x} + multiset(t)
    ensures |r| == |t| + 1
  {
    if t == [] then [x]
    else if Compare(t[0], x) < 0 then
      assert t == [t[0]] + t[1..];
      [t[0]] + Insert(x, t[1..])
    else [x] + t
  }

  /** Stable sort of the list by the comparator. */
  function SortNotes(s: seq<Note>): (r: seq<Note>)
    ensures multiset(r) == multiset(s)
    ensures |r| == |s|
  {
    if s == [] then []
    else
      assert s == [s[0]] + s[1..];
      Insert(s[0], SortNotes(s[1..]))
  }

  lemma {:induction false} InsertSorted(x: Note, t: seq<Note>)
    requires Sorted(t)
    ensures Sorted(Insert(x, t))
  {
    if t == [] {
    } else if Compare(t[0], x) < 0 {
      var rest := Insert(x, t[1..]);
      InsertSorted(x, t[1..]);
      assert Sorted(t[1..]) by {
        forall i, j | 0 <= i < j < |t[1..]| ensures Precedes(t[1..][i], t[1..][j]) {
          assert t[1..][i] == t[i + 1] && t[1..][j] == t[j + 1];
        }
      }
      forall y | y in rest ensures Precedes(t[0], y) {
        assert y in multiset(rest);
        if y == x {
          CompareFlip(t[0], x);
        } else {
          assert y in multiset(t[1..]);
          var k :| 0 <= k < |t[1..]| && t[1..][k] == y;
          assert t[k + 1] == y;
        }
      }
      var r := [t[0]] + rest;
      forall i, j | 0 <= i < j < |r| ensures Precedes(r[i], r[j]) {
        if i == 0 {
          assert r[j] == rest[j - 1];
          assert rest[j - 1] in rest;
        } else {
          assert r[i] == rest[i - 1] && r[j] == rest[j - 1];
        }
      }
    } else {
      var r := [x] + t;
      CompareFlip(t[0], x);
      forall i, j | 0 <= i < j < |r| ensures Precedes(r[i], r[j]) {
        if i == 0 {
          assert r[j] == t[j - 1];
          PrecedesTotalPreorder(x, t[0], t[j - 1]);
        } else {
          assert r[i] == t[i - 1] && r[j] == t[j - 1];
        }
      }
    }
  }

  /** The sort orders the list: favourites first, newest first in each group. */
  lemma {:induction false} SortNotesSorted(s: seq<Note>)
    ensures Sorted(SortNotes(s))
    ensures FavoritesFirst(SortNotes(s)) && NewestFirstInGroup(SortNotes(s))
  {
    if s != [] {
      SortNotesSorted(s[1..]);
      InsertSorted(s[0], SortNotes(s[1..]));
    }
    SortedIsPolicy(SortNotes(s));
  }

  /** The ids of the list, in list order. */
  function IdsOf(s: seq<Note>): (ids: seq<string>)
    ensures |ids| == |s|
  {
    if s == [] then [] else [s[0].id] + IdsOf(s[1..])
  }

  lemma {:induction false} InsertIds(x: Note, t: seq<Note>)
    ensures multiset(IdsOf(Insert(x, t))) == multiset{x.id} + multiset(IdsOf(t))
  {
    if t == [] {
    } else if Compare(t[0], x) < 0 {
      InsertIds(x, t[1..]);
      assert ([t[0]] + Insert(x, t[1..]))[1..] == Insert(x, t[1..]);
    } else {
      assert ([x] + t)[1..] == t;
    }
  }

  /** Sorting keeps the multiset of ids. */
  lemma {:induction false} SortNotesIds(s: seq<Note>)
    ensures multiset(IdsOf(SortNotes(s))) == multiset(IdsOf(s))
  {
    if s != [] {
      SortNotesIds(s[1..]);
      InsertIds(s[0], SortNotes(s[1..]));
    }
  }

  /**
   * `notes.map`: every entry with the given id gets the new title and the
   * timestamp (one reading for all of them; reachable lists hold an id once).
   */
  function RenameInList(s: seq<Note>, id: string, title: string, now: nat): (r: seq<Note>)
    ensures |r| == |s|
  {
    if s == [] then []
    else [if s[0].id == id then WithTitle(s[0], title, now) else s[0]]
         + RenameInList(s[1..], id, title, now)
  }

  /** Only entries whose id matches change, and they change as `WithTitle` says. */
  lemma {:induction false} RenameInListAt(s: seq<Note>, id: string, title: string, now: nat, i: nat)
    requires i < |s|
    ensures RenameInList(s, id, title, now)[i]
            == if s[i].id == id then WithTitle(s[i], title, now) else s[i]
  {
    if i > 0 {
      RenameInListAt(s[1..], id, title, now, i - 1);
    }
  }

  /** The rewrite keeps every id in place. */
  lemma {:induction false} RenameInListIds(s: seq<Note>, id: string, title: string, now: nat)
    ensures IdsOf(RenameInList(s, id, title, now)) == IdsOf(s)
  {
    if s != [] {
      RenameInListIds(s[1..], id, title, now);
    }
  }

  /**
   * The list after a rename: rewritten, then re-sorted with the same
   * comparator the reload uses. Same length, same ids, ordered.
   */
  function RetitleList(s: seq<Note>, id: string, title: string, now: nat): (r: seq<Note>)
    ensures multiset(r) == multiset(RenameInList(s, id, title, now))
    ensures |r| == |s|
    ensures multiset(IdsOf(r)) == multiset(IdsOf(s))
    ensures Sorted(r) && FavoritesFirst(r) && NewestFirstInGroup(r)
  {
    var renamed := RenameInList(s, id, title, now);
    RenameInListIds(s, id, title, now);
    SortNotesIds(renamed);
    SortNotesSorted(renamed);
    SortNotes(renamed)
  }
}
