/**
 * The notes list screen: a list of notes keyed by id, and `deleteNote`,
 * which replaces the list by the notes whose id differs from the one given.
 */
module Notes {

  datatype Note = Note(id: int, text: string)

  /** The list the screen starts with. */
  const InitialNotes: seq<Note> := [
    Note(1, "Note 1"), Note(2, "Note 2"), Note(3, "Note 3"), Note(4, "Note 4"), Note(5, "Note 5")
  ]

  /** How many notes of the list carry `id`. */
  function CountId(notes: seq<Note>, id: int): nat {
    if notes == [] then 0 else (if notes[0].id == id then 1 else 0) + CountId(notes[1..], id)
  }

  /** The ids are usable as list keys: no two notes share one. */
  predicate DistinctIds(notes: seq<Note>) {
    forall i, j :: 0 <= i < j < |notes| ==> notes[i].id != notes[j].id
  }

  /** `a` is `b` with some notes left out and the rest in their original order. */
  predicate IsSubsequence(a: seq<Note>, b: seq<Note>) {
    if a == [] then true
    else if b == [] then false
    else if a[0] == b[0] then IsSubsequence(a[1..], b[1..])
    else IsSubsequence(a, b[1..])
  }

  /**
   * `deleteNote(id)`: `filter((note) => note.id !== id)`. No note with that
   * id stays, every other note stays unchanged, and the length drops by the
   * number of notes that had the id.
   */
  function DeleteNote(notes: seq<Note>, id: int): (r: seq<Note>)
    ensures forall n :: n in r ==> n in notes && n.id != id
    ensures forall n :: n in notes && n.id != id ==> n in r
    ensures |r| == |notes| - CountId(notes, id)
  {
    if notes == [] then []
    else if notes[0].id != id then [notes[0]] + DeleteNote(notes[1..], id)
    else DeleteNote(notes[1..], id)
  }

  /** The notes that remain keep their relative order. */
  lemma {:induction false} DeleteNotePreservesOrder(notes: seq<Note>, id: int)
    ensures IsSubsequence(DeleteNote(notes, id), notes)
  {
    if notes != [] {
      DeleteNotePreservesOrder(notes[1..], id);
      var rest := DeleteNote(notes[1..], id);
      if notes[0].id != id {
        assert DeleteNote(notes, id)[1..] == rest;
      } else if rest != [] {
        assert rest[0] in rest;
      }
    }
  }

  /** Deleting leaves the list as it was exactly when no note carries the id. */
  lemma DeleteNoteUnchanged(notes: seq<Note>, id: int)
    ensures DeleteNote(notes, id) == notes <==> forall n :: n in notes ==> n.id != id
  {
    if forall n :: n in notes ==> n.id != id {
      DeleteAbsentId(notes, id);
    }
  }

  lemma {:induction false} DeleteAbsentId(notes: seq<Note>, id: int)
    requires forall n :: n in notes ==> n.id != id
    ensures DeleteNote(notes, id) == notes
  {
    if notes != [] {
      assert forall n :: n in notes[1..] ==> n in notes;
      DeleteAbsentId(notes[1..], id);
      assert notes == [notes[0]] + notes[1..];
    }
  }

  /** Deleting the same id twice is deleting it once (a double tap is harmless). */
  lemma DeleteNoteIdempotent(notes: seq<Note>, id: int)
    ensures DeleteNote(DeleteNote(notes, id), id) == DeleteNote(notes, id)
  {
    DeleteAbsentId(DeleteNote(notes, id), id);
  }

  /** Deletions of two ids can happen in either order. */
  lemma {:induction false} DeleteNoteCommutes(notes: seq<Note>, a: int, b: int)
    ensures DeleteNote(DeleteNote(notes, a), b) == DeleteNote(DeleteNote(notes, b), a)
  {
    if notes != [] {
      DeleteNoteCommutes(notes[1..], a, b);
      var n := notes[0];
      if n.id != a {
        assert DeleteNote(notes, a) == [n] + DeleteNote(notes[1..], a);
        assert ([n] + DeleteNote(notes[1..], a))[1..] == DeleteNote(notes[1..], a);
      }
      if n.id != b {
        assert DeleteNote(notes, b) == [n] + DeleteNote(notes[1..], b);
        assert ([n] + DeleteNote(notes[1..], b))[1..] == DeleteNote(notes[1..], b);
      }
    }
  }

  /** The tail of a list with distinct ids has distinct ids. */
  lemma DistinctTail(notes: seq<Note>)
    requires notes != [] && DistinctIds(notes)
    ensures DistinctIds(notes[1..])
  {
    var rest := notes[1..];
    forall i, j | 0 <= i < j < |rest| ensures rest[i].id != rest[j].id {
      assert rest[i] == notes[i + 1] && rest[j] == notes[j + 1];
    }
  }

  /** With distinct ids, no later note carries the first note's id. */
  lemma HeadIdNotInTail(notes: seq<Note>)
    requires notes != [] && DistinctIds(notes)
    ensures forall n :: n in notes[1..] ==> n.id != notes[0].id
  {
    forall n | n in notes[1..] ensures n.id != notes[0].id {
      var k :| 0 <= k < |notes[1..]| && notes[1..][k] == n;
      assert notes[k + 1] == n;
    }
  }

  /** A note whose id no note of a distinct-id list carries can be put in front of it. */
  lemma PrependDistinct(n: Note, r: seq<Note>)
    requires DistinctIds(r)
    requires forall x :: x in r ==> x.id != n.id
    ensures DistinctIds([n] + r)
  {
    var out := [n] + r;
    forall i, j | 0 <= i < j < |out| ensures out[i].id != out[j].id {
      if i == 0 {
        assert out[j] == r[j - 1] && r[j - 1] in r;
      } else {
        assert out[i] == r[i - 1] && out[j] == r[j - 1];
      }
    }
  }

  /** Deleting keeps the ids distinct, so they stay usable as list keys. */
  lemma {:induction false} DeleteNoteKeepsKeysDistinct(notes: seq<Note>, id: int)
    requires DistinctIds(notes)
    ensures DistinctIds(DeleteNote(notes, id))
  {
    if notes != [] {
      var rest := notes[1..];
      DistinctTail(notes);
      DeleteNoteKeepsKeysDistinct(rest, id);
      if notes[0].id != id {
        var r := DeleteNote(rest, id);
        HeadIdNotInTail(notes);
        assert forall n :: n in r ==> n.id != notes[0].id;
        PrependDistinct(notes[0], r);
      }
    }
  }

  /** With distinct ids, an id is carried by one note if present, by none otherwise. */
  lemma {:induction false} CountOfDistinctId(notes: seq<Note>, id: int)
    requires DistinctIds(notes)
    ensures CountId(notes, id) == if exists i :: 0 <= i < |notes| && notes[i].id == id then 1 else 0
  {
    if notes != [] {
      var rest := notes[1..];
      DistinctTail(notes);
      CountOfDistinctId(rest, id);
      if notes[0].id == id {
        forall i | 0 <= i < |rest| ensures rest[i].id != id {
          assert rest[i] == notes[i + 1];
        }
      } else {
        if exists i :: 0 <= i < |notes| && notes[i].id == id {
          var i :| 0 <= i < |notes| && notes[i].id == id;
          assert rest[i - 1] == notes[i];
        }
      }
    }
  }

  /** Deleting the id of a card shown in the list removes exactly that one note. */
  lemma DeleteShownNote(notes: seq<Note>, k: int)
    requires DistinctIds(notes) && 0 <= k < |notes|
    ensures |DeleteNote(notes, notes[k].id)| == |notes| - 1
    ensures notes[k] !in DeleteNote(notes, notes[k].id)
  {
    CountOfDistinctId(notes, notes[k].id);
  }

  /** The screen starts with five notes whose ids 1..5 are distinct keys. */
  lemma InitialNotesHaveDistinctIds()
    ensures |InitialNotes| == 5
    ensures forall i :: 0 <= i < |InitialNotes| ==> InitialNotes[i].id == i + 1
    ensures DistinctIds(InitialNotes)
  {
  }
}
