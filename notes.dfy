/** The note list of the app component: the record kept for each note and the three
    pure transformations the handlers apply to the list (prepend a fresh note, filter
    out an id, map an edited record over the matching entries). */
module Notes {

  /** Identifiers come from a random generator and timestamps from the clock, both
      outside this model; here they are opaque text supplied by the caller. */
  type NoteId = string
  type Timestamp = string

  datatype Note = Note(id: NoteId, title: string, content: string, lastModified: Timestamp)

  /** The ids of a list, in list order. */
  function Ids(s: seq<Note>): seq<NoteId> {
    seq(|s|, i requires 0 <= i < |s| => s[i].id)
  }

  /** No entry of `s` carries `id`. */
  predicate Absent(s: seq<Note>, id: NoteId) {
    forall i :: 0 <= i < |s| ==> s[i].id != id
  }

  /** No two entries share an id. */
  predicate UniqueIds(s: seq<Note>) {
    forall i, j :: 0 <= i < j < |s| ==> s[i].id != s[j].id
  }

  lemma UniqueIdsCons(x: Note, t: seq<Note>)
    ensures UniqueIds([x] + t) <==> Absent(t, x.id) && UniqueIds(t)
  {
    var s := [x] + t;
    if Absent(t, x.id) && UniqueIds(t) {
      forall i, j | 0 <= i < j < |s| ensures s[i].id != s[j].id {
        if i > 0 { assert s[i] == t[i - 1]; }
        assert s[j] == t[j - 1];
      }
    }
    if UniqueIds(s) {
      forall i | 0 <= i < |t| ensures t[i].id != x.id {
        assert s[0] == x && s[i + 1] == t[i];
      }
      forall i, j | 0 <= i < j < |t| ensures t[i].id != t[j].id {
        assert s[i + 1] == t[i] && s[j + 1] == t[j];
      }
    }
  }

  // ---------------------------------------------------------------------------
  // Create: a blank note stamped with the current time goes to the front.

  function NewNote(id: NoteId, now: Timestamp): (n: Note)
    ensures n.id == id && n.title == "" && n.content == "" && n.lastModified == now
  {
    Note(id, "", "", now)
  }

  /** The list after creating a note: the new note first, every old entry one place later. */
  function Create(s: seq<Note>, id: NoteId, now: Timestamp): (r: seq<Note>)
    ensures |r| == |s| + 1
    ensures r[0].id == id && r[0].title == "" && r[0].content == "" && r[0].lastModified == now
    ensures forall i :: 0 <= i < |s| ==> r[i + 1] == s[i]
  {
    [NewNote(id, now)] + s
  }

  /** A fresh id keeps the ids unique. */
  lemma CreateKeepsUnique(s: seq<Note>, id: NoteId, now: Timestamp)
    requires UniqueIds(s) && Absent(s, id)
    ensures UniqueIds(Create(s, id, now))
  {
  }

  /** Newest first: creating A and then B puts B before A, both before the old list. */
  lemma CreateOrder(s: seq<Note>, a: NoteId, ta: Timestamp, b: NoteId, tb: Timestamp)
    ensures Create(Create(s, a, ta), b, tb) == [NewNote(b, tb), NewNote(a, ta)] + s
  {
    assert [NewNote(b, tb)] + ([NewNote(a, ta)] + s) == [NewNote(b, tb), NewNote(a, ta)] + s;
  }

  // ---------------------------------------------------------------------------
  // Delete: keep the entries whose id differs.

  /** The list after deleting `id`: exactly the entries whose id is not `id`. */
  function Delete(s: seq<Note>, id: NoteId): (r: seq<Note>)
    ensures |r| <= |s|
    ensures forall n :: n in r <==> n in s && n.id != id
  {
    if s == [] then []
    else
      assert s == [s[0]] + s[1..];
      if s[0].id == id then Delete(s[1..], id) else [s[0]] + Delete(s[1..], id)
  }

  /** Filtering distributes over concatenation, so the kept entries stay in their order. */
  lemma {:induction false} DeleteConcat(a: seq<Note>, b: seq<Note>, id: NoteId)
    ensures Delete(a + b, id) == Delete(a, id) + Delete(b, id)
  {
    if a == [] {
      assert a + b == b;
    } else {
      assert (a + b)[0] == a[0];
      assert (a + b)[1..] == a[1..] + b;
      DeleteConcat(a[1..], b, id);
    }
  }

  /** A single entry is dropped exactly when it carries the id. */
  lemma DeleteSingle(x: Note, id: NoteId)
    ensures Delete([x], id) == if x.id == id then [] else [x]
  {
  }

  /** Deleting an id no entry has leaves the list as it was. */
  lemma {:induction false} DeleteAbsent(s: seq<Note>, id: NoteId)
    requires Absent(s, id)
    ensures Delete(s, id) == s
  {
    if s != [] {
      assert s == [s[0]] + s[1..];
      DeleteAbsent(s[1..], id);
    }
  }

  /** With unique ids, deleting the id of entry k removes exactly that entry and leaves
      every other entry, in its order, unchanged. */
  lemma {:induction false} DeleteRemovesOne(s: seq<Note>, k: nat)
    requires UniqueIds(s) && k < |s|
    ensures Delete(s, s[k].id) == s[..k] + s[k + 1..]
  {
    var id := s[k].id;
    assert s == s[..k] + ([s[k]] + s[k + 1..]);
    assert Absent(s[..k], id) by {
      forall i | 0 <= i < k ensures s[..k][i].id != id { assert s[..k][i] == s[i]; }
    }
    var after := s[k + 1..];
    assert Absent(after, id) by {
      forall i | 0 <= i < |after| ensures after[i].id != id { assert after[i] == s[k + 1 + i]; }
    }
    DeleteConcat(s[..k], [s[k]] + s[k + 1..], id);
    DeleteConcat([s[k]], s[k + 1..], id);
    DeleteSingle(s[k], id);
    DeleteAbsent(s[..k], id);
    DeleteAbsent(s[k + 1..], id);
  }

  /** Deleting keeps the ids unique. */
  lemma {:induction false} DeleteKeepsUnique(s: seq<Note>, id: NoteId)
    requires UniqueIds(s)
    ensures UniqueIds(Delete(s, id))
  {
    if s != [] {
      assert s == [s[0]] + s[1..];
      UniqueIdsCons(s[0], s[1..]);
      DeleteKeepsUnique(s[1..], id);
      var rest := Delete(s[1..], id);
      if s[0].id != id {
        assert Absent(rest, s[0].id) by {
          forall i | 0 <= i < |rest| ensures rest[i].id != s[0].id {
            assert rest[i] in rest;
            var m :| 0 <= m < |s[1..]| && s[1..][m] == rest[i];
          }
        }
        UniqueIdsCons(s[0], rest);
      }
    }
  }

  /** Deleting the same id twice is the same as deleting it once. */
  lemma {:induction false} DeleteIdempotent(s: seq<Note>, id: NoteId)
    ensures Delete(Delete(s, id), id) == Delete(s, id)
  {
    var r := Delete(s, id);
    assert Absent(r, id) by {
      forall i | 0 <= i < |r| ensures r[i].id != id { assert r[i] in r; }
    }
    DeleteAbsent(r, id);
  }

  // ---------------------------------------------------------------------------
  // Update: every entry with the edited record's id becomes that record, restamped.

  /** The list after saving the edited record `u` at time `now`. */
  function Update(s: seq<Note>, u: Note, now: Timestamp): (r: seq<Note>)
    ensures |r| == |s|
    ensures Ids(r) == Ids(s)
  {
    if s == [] then []
    else
      var r := [if s[0].id == u.id then u.(lastModified := now) else s[0]] + Update(s[1..], u, now);
      assert forall i :: 1 <= i < |r| ==> r[i].id == Ids(s[1..])[i - 1];
      r
  }

  /** Entry by entry: a matching entry becomes `u` stamped with `now`, any other is unchanged. */
  lemma {:induction false} UpdateAt(s: seq<Note>, u: Note, now: Timestamp, i: nat)
    requires i < |s|
    ensures Update(s, u, now)[i] == if s[i].id == u.id then u.(lastModified := now) else s[i]
  {
    if i > 0 {
      UpdateAt(s[1..], u, now, i - 1);
    }
  }

  /** Saving a record whose id no entry has leaves the list as it was. */
  lemma {:induction false} UpdateAbsent(s: seq<Note>, u: Note, now: Timestamp)
    requires Absent(s, u.id)
    ensures Update(s, u, now) == s
  {
    var r := Update(s, u, now);
    forall i | 0 <= i < |s| ensures r[i] == s[i] {
      UpdateAt(s, u, now, i);
    }
  }

  /** The id sequence is kept, so unique ids stay unique. */
  lemma UpdateKeepsUnique(s: seq<Note>, u: Note, now: Timestamp)
    requires UniqueIds(s)
    ensures UniqueIds(Update(s, u, now))
  {
    var r := Update(s, u, now);
    forall i, j | 0 <= i < j < |r| ensures r[i].id != r[j].id {
      assert Ids(r)[i] == Ids(s)[i] && Ids(r)[j] == Ids(s)[j];
    }
  }

  /** Saving the same record at the same time twice is the same as saving it once. */
  lemma {:induction false} UpdateIdempotent(s: seq<Note>, u: Note, now: Timestamp)
    ensures Update(Update(s, u, now), u, now) == Update(s, u, now)
  {
    var r := Update(s, u, now);
    var rr := Update(r, u, now);
    forall i | 0 <= i < |s| ensures rr[i] == r[i] {
      UpdateAt(s, u, now, i);
      UpdateAt(r, u, now, i);
    }
  }
}
