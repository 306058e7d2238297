/**
 * The durable note store the application imports from `./utils/noteStorage`.
 * That module is not part of this model; what the application relies on is
 * stated here as a map from id to note: `saveNote` is an upsert keyed by the
 * note's id, `deleteNote` removes the id, `getNote` returns the note or
 * nothing, and `getAllNotes` returns every stored note in some order.
 */
module NoteStorage {
  import opened Notes

  /** Every stored note is filed under its own id. */
  ghost predicate WellKeyed(m: map<string, Note>) {
    forall k :: k in m ==> m[k].id == k
  }

  /** `saveNote`: insert the note under its id, or overwrite what is there. */
  function Upsert(m: map<string, Note>, note: Note): (r: map<string, Note>)
    ensures r.Keys == m.Keys + {note.id}
    ensures note.id in r && r[note.id] == note
    ensures forall k :: k in m && k != note.id ==> r[k] == m[k]
  {
    m[note.id := note]
  }

  /** `deleteNote`: drop the id, if it is there. */
  function Remove(m: map<string, Note>, id: string): (r: map<string, Note>)
    ensures r.Keys == m.Keys - {id}
    ensures forall k :: k in r ==> r[k] == m[k]
  {
    m - {id}
  }

  /** Saving the same note twice leaves the store as saving it once. */
  lemma UpsertIdempotent(m: map<string, Note>, note: Note)
    ensures Upsert(Upsert(m, note), note) == Upsert(m, note)
  {
  }

  /** Deleting an absent id changes nothing. */
  lemma RemoveAbsent(m: map<string, Note>, id: string)
    requires id !in m
    ensures Remove(m, id) == m
  {
  }

  /** The notes filed under the keys `ks`. */
  ghost function ValuesAt(m: map<string, Note>, ks: set<string>): set<Note> {
    set k | k in ks && k in m :: m[k]
  }

  lemma ValuesAtGrow(m: map<string, Note>, ks: set<string>, k: string)
    requires WellKeyed(m) && k in m && k !in ks
    ensures m[k] !in ValuesAt(m, ks)
    ensures ValuesAt(m, ks + {k}) == ValuesAt(m, ks) + {m[k]}
    ensures multiset(ValuesAt(m, ks + {k})) == multiset(ValuesAt(m, ks)) + multiset{m[k]}
  {
  }

  class NoteStore {
    var entries: map<string, Note>

    ghost predicate Valid()
      reads this
    {
      WellKeyed(entries)
    }

    constructor ()
      ensures Valid() && entries == map[]
    {
      entries := map[];
    }

    method SaveNote(note: Note)
      requires Valid()
      modifies this
      ensures Valid()
      ensures entries == Upsert(old(entries), note)
    {
      entries := Upsert(entries, note);
    }

    method DeleteNote(id: string)
      requires Valid()
      modifies this
      ensures Valid()
      ensures entries == Remove(old(entries), id)
    {
      entries := Remove(entries, id);
    }

    method GetNote(id: string) returns (r: Option<Note>)
      requires Valid()
      ensures r.Some? <==> id in entries
      ensures r.Some? ==> r.value == entries[id] && r.value.id == id
    {
      r := if id in entries then Some(entries[id]) else None;
    }

    /** Every stored note exactly once, in an order the store chooses. */
    method GetAllNotes() returns (all: seq<Note>)
      requires Valid()
      ensures multiset(all) == multiset(entries.Values)
    {
      all := [];
      var pending := entries.Keys;
      while pending != {}
        invariant pending <= entries.Keys
        invariant multiset(all) == multiset(ValuesAt(entries, entries.Keys - pending))
        decreases pending
      {
        var k :| k in pending;
        var done := entries.Keys - pending;
        ValuesAtGrow(entries, done, k);
        assert entries.Keys - (pending - {k}) == done + {k};
        assert multiset(all + [entries[k]]) == multiset(all) + multiset{entries[k]};
        all := all + [entries[k]];
        pending := pending - {k};
      }
      assert ValuesAt(entries, entries.Keys) == entries.Values;
      assert entries.Keys - pending == entries.Keys;
    }
  }
}
