/** The in-memory note store (src/app/services/note.service.ts). The store is an
    ordered collection of notes that the service's methods change in place;
    the functions of this module say, on values, what each method leaves
    behind, and the lemmas say what that means. */
module NoteStore {
  import opened Optional
  import opened NoteModel
  import Seqs

  /** The two notes the store starts with; `now` stands for the clock reads. */
  function SeedNotes(now: Timestamp): (r: seq<Note>)
    ensures |r| == 2 && IdsSequential(r)
    ensures forall k :: 0 <= k < |r| ==> r[k].pageId == Some(1)
  {
    [ Note(Some(1), "Note de test 1", "Contenu de la note de test 1",
           Some(now), Some(now), None, Some(1), Some([])),
      Note(Some(2), "Note de test 2", "Contenu de la note de test 2",
           Some(now), Some(now), None, Some(1), Some([])) ]
  }

  function NoteId(n: Note): Option<int> { n.id }

  /** No two stored notes share an id (two notes without an id count as sharing). */
  ghost predicate IdsDistinct(notes: seq<Note>) {
    Seqs.KeysDistinct(notes, NoteId)
  }

  /** The ids are exactly 1, 2, ..., |notes|, in this order. */
  ghost predicate IdsSequential(notes: seq<Note>) {
    forall k :: 0 <= k < |notes| ==> notes[k].id == Some(k + 1)
  }

  /** A JavaScript number used as a condition: `undefined` and 0 are falsy. */
  predicate Truthy(n: Option<int>) {
    n.Some? && n.value != 0
  }

  /** What `getNotes(pageId)` returns. */
  function ListNotes(notes: seq<Note>, pageId: Option<int>): (r: seq<Note>)
    ensures |r| <= |notes|
    ensures !Truthy(pageId) ==> r == notes
    ensures Truthy(pageId) ==> forall k :: 0 <= k < |r| ==> r[k] in notes && r[k].pageId == pageId
    ensures Truthy(pageId) ==> forall k :: 0 <= k < |notes| && notes[k].pageId == pageId ==> notes[k] in r
  {
    if Truthy(pageId) then Seqs.Filter(notes, (n: Note) => n.pageId == pageId) else notes
  }

  /** Position of the first note whose id is `id`, or -1: `findIndex(n => n.id === id)`. */
  function IndexOfId(notes: seq<Note>, id: int): (r: int)
    ensures -1 <= r < |notes|
    ensures r == -1 <==> forall k :: 0 <= k < |notes| ==> notes[k].id != Some(id)
    ensures r >= 0 ==> notes[r].id == Some(id) && forall k :: 0 <= k < r ==> notes[k].id != Some(id)
  {
    if notes == [] then -1
    else if notes[0].id == Some(id) then 0
    else
      var r := IndexOfId(notes[1..], id);
      if r == -1 then -1 else r + 1
  }

  /** What `getNote(id)` returns: the first note with that id, if any. */
  function FindNote(notes: seq<Note>, id: int): (r: Option<Note>)
    ensures r.None? <==> forall k :: 0 <= k < |notes| ==> notes[k].id != Some(id)
    ensures r.Some? ==> exists k :: 0 <= k < |notes| && notes[k] == r.value && r.value.id == Some(id) &&
                          forall j :: 0 <= j < k ==> notes[j].id != Some(id)
  {
    var i := IndexOfId(notes, id);
    if i == -1 then None else Some(notes[i])
  }

  /** The note `createNote(note)` stores and returns when the store holds `notes`. */
  function NewNote(notes: seq<Note>, note: Note, now: Timestamp): (r: Note)
    ensures r.id == Some(|notes| + 1)
    ensures r.createdAt == Some(now) && r.updatedAt == Some(now)
    ensures r.title == note.title && r.content == note.content && r.pageId == note.pageId
    ensures r.userId == note.userId && r.images == note.images
  {
    note.(id := Some(|notes| + 1), createdAt := Some(now), updatedAt := Some(now))
  }

  /** The note `updateNote(id, note)` stores in place of the old one. */
  function Replacement(id: int, note: Note, now: Timestamp): (r: Note)
    ensures r.id == Some(id) && r.updatedAt == Some(now)
    ensures r.createdAt == note.createdAt
    ensures r.title == note.title && r.content == note.content && r.pageId == note.pageId
    ensures r.userId == note.userId && r.images == note.images
  {
    note.(id := Some(id), updatedAt := Some(now))
  }

  /** The store after `deleteNote(id)`. */
  function Deleted(notes: seq<Note>, id: int): (r: seq<Note>)
    ensures IndexOfId(notes, id) == -1 ==> r == notes
    ensures IndexOfId(notes, id) >= 0 ==> |r| == |notes| - 1
  {
    var i := IndexOfId(notes, id);
    if i == -1 then notes else Seqs.RemoveAt(notes, i)
  }

  class NoteService {
    /** The stored notes, in insertion order (`mockNotes`). */
    var notes: seq<Note>

    /** A new service holds the two seed notes, stamped with `now`. */
    constructor (now: Timestamp)
      ensures notes == SeedNotes(now)
    {
      notes := SeedNotes(now);
    }

    /** All notes, or the notes of one page when `pageId` is truthy; the store is not changed. */
    method GetNotes(pageId: Option<int>) returns (r: seq<Note>)
      ensures r == ListNotes(notes, pageId)
      ensures !Truthy(pageId) ==> r == notes
      ensures Truthy(pageId) ==> forall k :: 0 <= k < |r| ==> r[k] in notes && r[k].pageId == pageId
    {
      r := ListNotes(notes, pageId);
    }

    /** The first note with id `id`, or `None` (the source's `undefined`); the store is not changed. */
    method GetNote(id: int) returns (r: Option<Note>)
      ensures r == FindNote(notes, id)
      ensures r.Some? ==> r.value in notes && r.value.id == Some(id)
      ensures r.None? ==> forall k :: 0 <= k < |notes| ==> notes[k].id != Some(id)
    {
      r := FindNote(notes, id);
    }

    /** Appends a copy of `note` with id `|notes| + 1` and both timestamps `now`, and returns it. */
    method CreateNote(note: Note, now: Timestamp) returns (r: Note)
      modifies this
      ensures r == NewNote(old(notes), note, now)
      ensures notes == old(notes) + [r]
      ensures IdsSequential(old(notes)) ==> IdsSequential(notes)
    {
      r := NewNote(notes, note, now);
      notes := notes + [r];
    }

    /** Replaces the first note with id `id`, if one exists, by `note` with that id and
        `updatedAt = now`, and returns the stored note; otherwise returns `note` and changes nothing. */
    method UpdateNote(id: int, note: Note, now: Timestamp) returns (r: Note)
      modifies this
      ensures IndexOfId(old(notes), id) == -1 ==> notes == old(notes) && r == note
      ensures IndexOfId(old(notes), id) >= 0 ==>
                r == Replacement(id, note, now) && notes == old(notes)[IndexOfId(old(notes), id) := r]
    {
      var index := IndexOfId(notes, id);
      if index != -1 {
        notes := notes[index := Replacement(id, note, now)];
        r := notes[index];
      } else {
        r := note;
      }
    }

    /** Removes the first note with id `id`, if there is one. */
    method DeleteNote(id: int)
      modifies this
      ensures notes == Deleted(old(notes), id)
    {
      var index := IndexOfId(notes, id);
      if index != -1 {
        notes := Seqs.RemoveAt(notes, index);
      }
    }
  }

  // ----- What the operations mean -----

  /** Listing a page's notes keeps their stored order: it distributes over concatenation. */
  lemma {:induction false} ListNotesConcat(a: seq<Note>, b: seq<Note>, pageId: Option<int>)
    ensures ListNotes(a + b, pageId) == ListNotes(a, pageId) + ListNotes(b, pageId)
  {
    if Truthy(pageId) {
      Seqs.FilterConcat(a, b, (n: Note) => n.pageId == pageId);
    }
  }

  /** After `createNote`, the new note is listed last among the notes of its page (and of the whole store). */
  lemma {:induction false} ListedAfterCreate(notes: seq<Note>, note: Note, now: Timestamp, pageId: Option<int>)
    requires !Truthy(pageId) || note.pageId == pageId
    ensures var n := NewNote(notes, note, now);
            ListNotes(notes + [n], pageId) == ListNotes(notes, pageId) + [n]
  {
    var n := NewNote(notes, note, now);
    ListNotesConcat(notes, [n], pageId);
    if Truthy(pageId) {
      assert Seqs.Filter([n][1..], (x: Note) => x.pageId == pageId) == [];
    }
  }

  /** `createNote` issues an id no stored note has, provided the ids are 1..n. */
  lemma CreateIssuesFreshId(notes: seq<Note>, note: Note, now: Timestamp)
    requires IdsSequential(notes)
    ensures forall k :: 0 <= k < |notes| ==> notes[k].id != NewNote(notes, note, now).id
  {
  }

  /** Sequential ids are pairwise distinct. */
  lemma SequentialIdsDistinct(notes: seq<Note>)
    requires IdsSequential(notes)
    ensures IdsDistinct(notes)
  {
  }

  /** The store after a run of `createNote` calls, one per (input, clock) pair. */
  function CreateAll(notes: seq<Note>, inputs: seq<(Note, Timestamp)>): (r: seq<Note>)
    ensures |r| == |notes| + |inputs|
    ensures r[..|notes|] == notes
    decreases |inputs|
  {
    if inputs == [] then notes
    else
      var r := CreateAll(notes + [NewNote(notes, inputs[0].0, inputs[0].1)], inputs[1..]);
      assert r[..|notes|] == r[..|notes| + 1][..|notes|];
      r
  }

  /** Creates alone keep the ids equal to the positions plus one. */
  lemma {:induction false} CreateAllSequential(notes: seq<Note>, inputs: seq<(Note, Timestamp)>)
    requires IdsSequential(notes)
    ensures IdsSequential(CreateAll(notes, inputs))
    decreases |inputs|
  {
    if inputs != [] {
      var next := notes + [NewNote(notes, inputs[0].0, inputs[0].1)];
      assert IdsSequential(next);
      CreateAllSequential(next, inputs[1..]);
    }
  }

  /** From the seed, any run of creates leaves ids exactly 1..n, pairwise distinct. */
  lemma CreateOnlyFromSeed(now: Timestamp, inputs: seq<(Note, Timestamp)>)
    ensures var r := CreateAll(SeedNotes(now), inputs);
            |r| == 2 + |inputs| && IdsSequential(r) && IdsDistinct(r)
  {
    CreateAllSequential(SeedNotes(now), inputs);
    SequentialIdsDistinct(CreateAll(SeedNotes(now), inputs));
  }

  /** `deleteNote` removes exactly the first note with the id and keeps the others in order. */
  lemma DeleteRemovesFirstMatch(notes: seq<Note>, id: int)
    requires IndexOfId(notes, id) >= 0
    ensures var i := IndexOfId(notes, id);
            Deleted(notes, id) == notes[..i] + notes[i + 1..] && notes[i].id == Some(id)
  {
  }

  /** With distinct ids, a deleted id is gone from the store and a second delete changes nothing. */
  lemma {:induction false} DeleteTwiceIsDeleteOnce(notes: seq<Note>, id: int)
    requires IdsDistinct(notes)
    ensures IndexOfId(Deleted(notes, id), id) == -1
    ensures Deleted(Deleted(notes, id), id) == Deleted(notes, id)
  {
  }

  /** Deleting and updating keep ids distinct (creates need sequential ids for that: see below). */
  lemma DeleteKeepsIdsDistinct(notes: seq<Note>, id: int)
    requires IdsDistinct(notes)
    ensures IdsDistinct(Deleted(notes, id))
  {
    var i := IndexOfId(notes, id);
    if i >= 0 {
      Seqs.RemoveAtKeepsKeysDistinct(notes, i, NoteId);
    }
  }

  lemma UpdateKeepsIdsDistinct(notes: seq<Note>, id: int, note: Note, now: Timestamp)
    requires IdsDistinct(notes) && IndexOfId(notes, id) >= 0
    ensures IdsDistinct(notes[IndexOfId(notes, id) := Replacement(id, note, now)])
  {
  }

  /** Ids are `length + 1`, so a create after a delete can reissue an id still in use:
      from the seed (ids 1, 2), deleting note 1 and then creating a note yields a second note with id 2. */
  lemma CreateAfterDeleteReusesId(now: Timestamp, note: Note)
    ensures var after := Deleted(SeedNotes(now), 1);
            var store := after + [NewNote(after, note, now)];
            |store| == 2 && store[0].id == Some(2) && store[1].id == Some(2) && !IdsDistinct(store)
  {
  }
}
