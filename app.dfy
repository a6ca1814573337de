/** The app component's state: the note list, the selected note, and the copy of the
    list kept in browser storage. Each handler is one atomic step that assigns the
    result of a pure list transformation and sets the selection. */
module App {
  import opened Wrappers
  import opened Notes

  // ---------------------------------------------------------------------------
  // Startup

  /** Outcome of reading the saved list when the component mounts: a parse error is
      thrown and nothing renders. */
  datatype Startup = Ready(notes: seq<Note>) | ParseError

  /** The initial list. `saved` is what the storage slot holds (None when the key is
      missing); `parsed` is what parsing that text yields, None when it throws. */
  function InitialNotes(saved: Option<string>, parsed: Option<seq<Note>>): (r: Startup)
    ensures saved == None || saved == Some("") ==> r == Ready([])
    ensures saved.Some? && saved.value != "" ==> (r == ParseError <==> parsed == None)
    ensures saved.Some? && saved.value != "" && parsed.Some? ==> r == Ready(parsed.value)
  {
    if saved == None || saved.value == "" then Ready([])
    else if parsed == None then ParseError
    else Ready(parsed.value)
  }

  // ---------------------------------------------------------------------------
  // Selection

  /** The selection is nothing, or some stored entry has its id, title and content:
      the editor shows what the list holds. */
  predicate InSync(s: seq<Note>, sel: Option<Note>) {
    sel.Some? ==>
      exists i :: 0 <= i < |s| && s[i].id == sel.value.id
                   && s[i].title == sel.value.title && s[i].content == sel.value.content
  }

  /** A title edit on the selected note changes only the title and the timestamp of
      the matching entry; id and content stay, and every other entry is unchanged. */
  lemma EditTitleEffect(s: seq<Note>, sel: Note, title: string, now: Timestamp, i: nat)
    requires UniqueIds(s) && InSync(s, Some(sel)) && i < |s|
    ensures Update(s, sel.(title := title), now)[i]
            == if s[i].id == sel.id then s[i].(title := title, lastModified := now) else s[i]
  {
    UpdateAt(s, sel.(title := title), now, i);
    if s[i].id == sel.id {
      var k :| 0 <= k < |s| && s[k].id == sel.id && s[k].title == sel.title && s[k].content == sel.content;
      assert k == i;
    }
  }

  /** The same for a content edit: only content and timestamp change. */
  lemma EditContentEffect(s: seq<Note>, sel: Note, content: string, now: Timestamp, i: nat)
    requires UniqueIds(s) && InSync(s, Some(sel)) && i < |s|
    ensures Update(s, sel.(content := content), now)[i]
            == if s[i].id == sel.id then s[i].(content := content, lastModified := now) else s[i]
  {
    UpdateAt(s, sel.(content := content), now, i);
    if s[i].id == sel.id {
      var k :| 0 <= k < |s| && s[k].id == sel.id && s[k].title == sel.title && s[k].content == sel.content;
      assert k == i;
    }
  }

  /** Saving a record whose id is in the list leaves that record in sync with the list. */
  lemma UpdateInSync(s: seq<Note>, u: Note, now: Timestamp)
    requires !Absent(s, u.id)
    ensures InSync(Update(s, u, now), Some(u))
  {
    var k :| 0 <= k < |s| && s[k].id == u.id;
    UpdateAt(s, u, now, k);
  }

  /** After saving `u`, the selection is `u` with the timestamp it came with, while the
      list holds `u` restamped: when the two timestamps differ, no entry equals the
      selection. */
  lemma {:induction false} SelectionNotStored(s: seq<Note>, u: Note, now: Timestamp)
    requires u.lastModified != now
    ensures u !in Update(s, u, now)
  {
    var r := Update(s, u, now);
    forall i | 0 <= i < |r| ensures r[i] != u {
      UpdateAt(s, u, now, i);
    }
  }

  // ---------------------------------------------------------------------------
  // The component state

  class NoteStore {
    var notes: seq<Note>
    var selected: Option<Note>
    /** What the storage slot holds, written after every change of the list. */
    ghost var persisted: seq<Note>

    /** The storage slot mirrors the list. */
    ghost predicate Valid()
      reads this
    {
      persisted == notes
    }

    /** The component's invariant as a state machine: ids are unique and the selection
        is nothing or in sync with its stored entry. Every handler keeps it. */
    ghost predicate Consistent()
      reads this
    {
      UniqueIds(notes) && InSync(notes, selected)
    }

    /** Mounting with the list read at startup: nothing selected, and the list is
        written back to storage. A parse error throws before the component exists. */
    constructor Load(start: Startup)
      requires start.Ready?
      ensures Valid()
      ensures notes == start.notes && selected == None
      ensures UniqueIds(start.notes) ==> Consistent()
    {
      notes := start.notes;
      selected := None;
      persisted := start.notes;
    }

    /** New note: a blank note stamped `now` with the caller's fresh `id` goes to the
        front of the list and becomes the selection. */
    method CreateNote(id: NoteId, now: Timestamp)
      requires Valid()
      requires Absent(notes, id)
      modifies this
      ensures Valid()
      ensures notes == Create(old(notes), id, now)
      ensures selected == Some(NewNote(id, now))
      ensures InSync(notes, selected)
      ensures UniqueIds(old(notes)) ==> UniqueIds(notes)
      ensures UniqueIds(old(notes)) ==> Consistent()
    {
      var note := NewNote(id, now);
      if UniqueIds(notes) {
        CreateKeepsUnique(notes, id, now);
      }
      notes := Create(notes, id, now);
      selected := Some(note);
      persisted := notes;
    }

    /** Delete: drop every entry with `id` and clear the selection, whichever note was
        selected and whether or not any entry had `id`. */
    method DeleteNote(id: NoteId)
      requires Valid()
      modifies this
      ensures Valid()
      ensures notes == Delete(old(notes), id)
      ensures selected == None
      ensures Absent(old(notes), id) ==> notes == old(notes)
      ensures UniqueIds(old(notes)) ==> UniqueIds(notes)
      ensures UniqueIds(old(notes)) ==> Consistent()
    {
      if Absent(notes, id) {
        DeleteAbsent(notes, id);
      }
      if UniqueIds(notes) {
        DeleteKeepsUnique(notes, id);
      }
      notes := Delete(notes, id);
      selected := None;
      persisted := notes;
    }

    /** Save an edited record: every entry with its id becomes the record stamped
        `now`; the selection becomes the record as passed, with its own timestamp. */
    method UpdateNote(u: Note, now: Timestamp)
      requires Valid()
      modifies this
      ensures Valid()
      ensures notes == Update(old(notes), u, now)
      ensures selected == Some(u)
      ensures Ids(notes) == Ids(old(notes))
      ensures Absent(old(notes), u.id) ==> notes == old(notes)
      ensures !Absent(old(notes), u.id) ==> InSync(notes, selected)
      ensures UniqueIds(old(notes)) ==> UniqueIds(notes)
      ensures UniqueIds(old(notes)) && !Absent(old(notes), u.id) ==> Consistent()
    {
      if Absent(notes, u.id) {
        UpdateAbsent(notes, u, now);
      } else {
        UpdateInSync(notes, u, now);
      }
      if UniqueIds(notes) {
        UpdateKeepsUnique(notes, u, now);
      }
      notes := Update(notes, u, now);
      selected := Some(u);
      persisted := notes;
    }

    /** Click on a list entry: it becomes the selection; the list is not touched. */
    method SelectNote(n: Note)
      requires n in notes
      modifies this
      ensures selected == Some(n)
      ensures notes == old(notes) && persisted == old(persisted)
      ensures InSync(notes, selected)
      ensures UniqueIds(notes) ==> Consistent()
    {
      selected := Some(n);
    }

    /** Typing in the title field: the selected note with the new title is saved. */
    method EditTitle(title: string, now: Timestamp)
      requires Valid()
      requires selected.Some?
      modifies this
      ensures Valid()
      ensures selected == Some(old(selected).value.(title := title))
      ensures notes == Update(old(notes), old(selected).value.(title := title), now)
      ensures old(Consistent()) ==> Consistent()
      ensures InSync(old(notes), old(selected)) ==> InSync(notes, selected)
      ensures UniqueIds(old(notes)) ==> UniqueIds(notes)
      ensures UniqueIds(old(notes)) && InSync(old(notes), old(selected)) ==>
                forall i :: 0 <= i < |notes| ==>
                  notes[i] == if old(notes)[i].id == old(selected).value.id
                              then old(notes)[i].(title := title, lastModified := now)
                              else old(notes)[i]
    {
      var sel := selected.value;
      if UniqueIds(notes) && InSync(notes, selected) {
        forall i | 0 <= i < |notes|
          ensures Update(notes, sel.(title := title), now)[i]
                  == if notes[i].id == sel.id then notes[i].(title := title, lastModified := now) else notes[i]
        {
          EditTitleEffect(notes, sel, title, now, i);
        }
      }
      UpdateNote(sel.(title := title), now);
    }

    /** Typing in the content area: the selected note with the new content is saved. */
    method EditContent(content: string, now: Timestamp)
      requires Valid()
      requires selected.Some?
      modifies this
      ensures Valid()
      ensures selected == Some(old(selected).value.(content := content))
      ensures notes == Update(old(notes), old(selected).value.(content := content), now)
      ensures old(Consistent()) ==> Consistent()
      ensures InSync(old(notes), old(selected)) ==> InSync(notes, selected)
      ensures UniqueIds(old(notes)) ==> UniqueIds(notes)
      ensures UniqueIds(old(notes)) && InSync(old(notes), old(selected)) ==>
                forall i :: 0 <= i < |notes| ==>
                  notes[i] == if old(notes)[i].id == old(selected).value.id
                              then old(notes)[i].(content := content, lastModified := now)
                              else old(notes)[i]
    {
      var sel := selected.value;
      if UniqueIds(notes) && InSync(notes, selected) {
        forall i | 0 <= i < |notes|
          ensures Update(notes, sel.(content := content), now)[i]
                  == if notes[i].id == sel.id then notes[i].(content := content, lastModified := now) else notes[i]
        {
          EditContentEffect(notes, sel, content, now, i);
        }
      }
      UpdateNote(sel.(content := content), now);
    }
  }
}
