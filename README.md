# Note store: a Dafny model

This project models the logic of a single-page note-taking app: one React component
(`src/App.jsx`) that keeps a list of notes and the currently selected note. It mirrors
the list into browser storage after every change and shows a tag-stripped preview of
each note's content.

- `wrappers.dfy`, module `Wrappers`: `Option`. It stands for the component's `null`
  selection, a storage key that holds nothing, and a parse that throws.
- `notes.dfy`, module `Notes`: the `Note` record `{id, title, content, lastModified}`.
  It also holds the three pure list transformations the handlers apply, with their
  lemmas:
  - `Create` prepends a blank note.
  - `Delete` filters out an id.
  - `Update` maps an edited record over the entries with its id and restamps them.
- `preview.dfy`, module `Preview`: the preview expression `content.replace(/<[^>]+>/g, "")
  || "Empty note..."`. `StripTags` is the global left-to-right replace. `IsTag` is the
  language of the pattern. `PreviewText` adds the fallback.
- `app.dfy`, module `App`: the startup load (`InitialNotes`) and the class `NoteStore`.
  The class has the fields `notes` and `selected`, plus a ghost field `persisted` for
  the storage slot. `Valid()` says storage mirrors the list; `Consistent()` says ids
  are unique and the selection is nothing or in sync with its stored entry. Each handler is one atomic method that assigns the result of a
  `Notes` function and sets the selection.

The caller supplies ids and timestamps. `CreateNote` requires that the id is not
already in the list, which stands for the random UUID generator being collision-free.

Three behaviours of the code that are easy to misread:
- Saving an edited note replaces the whole stored record with the edited one (its id is
  the same), not just the title and content.
- Delete clears the selection on every delete, not only when the deleted note was the
  selected one.
- The fallback preview `"Empty note..."` is shown when the stripped text is empty. It is
  also shown when the stripped text is literally `"Empty note..."`; `PreviewIsFallback`
  states the exact condition.

## Model

| member | source | states |
|---|---|---|
| `Notes.NewNote` | src/App.jsx:17-22 | a new note carries the given id, an empty title, empty content and the given timestamp |
| `Notes.Create` | src/App.jsx:26 | the list grows by one; the new blank note is first and every old entry keeps its order, shifted one place |
| `Notes.CreateKeepsUnique` | src/App.jsx:24-27 | a fresh id prepended to a list with unique ids keeps the ids unique |
| `Notes.CreateOrder` | src/App.jsx:26 | newest first: creating A then B gives B, A, then the old list |
| `Notes.Delete` | src/App.jsx:31 | the result holds exactly the entries whose id differs from the deleted id, and is never longer |
| `Notes.DeleteConcat` | src/App.jsx:31 | deleting distributes over concatenation, so the kept entries keep their relative order |
| `Notes.DeleteSingle` | src/App.jsx:31 | one entry is dropped exactly when its id equals the deleted id |
| `Notes.DeleteAbsent` | src/App.jsx:31 | deleting an id that no entry has leaves the list unchanged |
| `Notes.DeleteRemovesOne` | src/App.jsx:31 | with unique ids, deleting the id of entry k removes exactly entry k and leaves every other entry unchanged and in order |
| `Notes.DeleteKeepsUnique` | src/App.jsx:31 | deleting keeps the ids unique |
| `Notes.DeleteIdempotent` | src/App.jsx:31 | deleting the same id twice equals deleting it once |
| `Notes.Update` | src/App.jsx:36-42 | saving an edit keeps the length and the whole sequence of ids |
| `Notes.UpdateAt` | src/App.jsx:37-41 | an entry with the edited id becomes the edited record stamped with the new time; any other entry is unchanged |
| `Notes.UpdateAbsent` | src/App.jsx:37-41 | saving a record whose id no entry has leaves the list unchanged |
| `Notes.UpdateKeepsUnique` | src/App.jsx:36-42 | saving an edit keeps the ids unique |
| `Notes.UpdateIdempotent` | src/App.jsx:36-42 | saving the same record at the same time twice equals saving it once |
| `Preview.IndexOf` | src/App.jsx:98 | the first position of a character, or the length when absent: every earlier character differs |
| `Preview.TagLength` | src/App.jsx:98 | a prefix of the text matches `<[^>]+>` exactly when its length is the returned positive length (0: no match at the front) |
| `Preview.StripTags` | src/App.jsx:98 | the stripped text is never longer than the content and only holds characters of the content |
| `Preview.StripLeavesNoTag` | src/App.jsx:98 | the stripped text has no substring `<`, one or more non-`>` characters, `>` |
| `Preview.StripNoTagUnchanged` | src/App.jsx:98 | a text with no such substring is returned unchanged |
| `Preview.StripFixedPoint` | src/App.jsx:98 | stripping leaves a text unchanged if and only if it has no such substring |
| `Preview.StripIdempotent` | src/App.jsx:98 | stripping twice equals stripping once |
| `Preview.StripNoOpenUnchanged` | src/App.jsx:98 | content with no `<` is returned unchanged |
| `Preview.StripPlainPrefix` | src/App.jsx:98 | text without `<` at the front is kept as it is, ahead of the stripped rest |
| `Preview.StripTagPrefix` | src/App.jsx:98 | a whole match at the front is dropped and the rest is stripped |
| `Preview.StripUnmatchedOpen` | src/App.jsx:98 | a `<` that starts no match is kept, followed by the stripped rest |
| `Preview.StripAroundTag` | src/App.jsx:98 | text before and after a match survives: `a` + match + `b` shows as `a` + stripped `b` |
| `Preview.PreviewText` | src/App.jsx:98 | the preview is the fallback text when the stripped text is empty, otherwise the stripped text; never empty |
| `Preview.PreviewIsFallback` | src/App.jsx:98 | the fallback text is shown if and only if the stripped text is empty or is itself the fallback text |
| `App.InitialNotes` | src/App.jsx:6-9 | a missing or empty storage value gives an empty list; otherwise the parsed list, or a parse error exactly when parsing throws |
| `App.EditTitleEffect` | src/App.jsx:120-121 | with unique ids and an in-sync selection, a title edit changes only the title and timestamp of the selected entry and leaves every other entry unchanged |
| `App.EditContentEffect` | src/App.jsx:139-140 | with unique ids and an in-sync selection, a content edit changes only the content and timestamp of the selected entry and leaves every other entry unchanged |
| `App.UpdateInSync` | src/App.jsx:35-44 | after saving a record whose id is in the list, some entry has the record's id, title and content |
| `App.SelectionNotStored` | src/App.jsx:39-44 | the selection keeps the timestamp it was passed with, so when that differs from the new time, no stored entry equals it |
| `App.NoteStore.Load` | src/App.jsx:6-15 | the component mounts with the list of a successful load, nothing selected, and the list written back to storage; a loaded list with unique ids starts consistent |
| `App.NoteStore.CreateNote` | src/App.jsx:24-28 | the list becomes the new note followed by the old list; the new note is selected and in sync; storage mirrors the list; unique ids stay unique and the state is consistent |
| `App.NoteStore.DeleteNote` | src/App.jsx:30-33 | the list becomes the filtered list; the selection is cleared whatever was deleted; an absent id leaves the list unchanged; unique ids stay unique and the state is consistent |
| `App.NoteStore.UpdateNote` | src/App.jsx:35-45 | the list becomes the mapped list with the same ids; the selection is the record as passed; an unknown id leaves the list unchanged; a known id leaves the selection in sync, and the state consistent when ids were unique |
| `App.NoteStore.SelectNote` | src/App.jsx:75 | clicking an entry selects it, in sync with the list; the list and storage are untouched; with unique ids the state is consistent |
| `App.NoteStore.EditTitle` | src/App.jsx:120-121 | the selected note with the new title is saved and selected; with unique ids and an in-sync selection only that entry's title and timestamp change; a consistent state stays consistent |
| `App.NoteStore.EditContent` | src/App.jsx:139-140 | the selected note with the new content is saved and selected; with unique ids and an in-sync selection only that entry's content and timestamp change; a consistent state stays consistent |

## Left out

- Reading and writing browser storage, and turning JSON text into a list and back
  (src/App.jsx:7-8, 14). These are outside code. The text that parsing yields is a
  parameter of `InitialNotes` (None when parsing throws). Storage is a ghost field
  `persisted` that every change sets equal to the list. The text round trip, and the
  claim that writing twice yields the same text, are not modelled.
- Saved text that parses to something other than a list of notes (for example `null`,
  or records without a `content` field). It would make rendering throw. The model's
  parse result is always a list of `Note` records.
- UUID generation (src/App.jsx:18). The caller supplies the id, and `CreateNote`
  requires that it is not already in the list.
- Notes.Update: every matching entry gets the same single clock reading `now`. The code
  reads the clock once per matching entry inside the `map` callback
  (src/App.jsx:37-39), so with repeated ids the stamps could differ by the clock's
  progress between calls.
- The clock and date formatting (src/App.jsx:21, 39, 101-106). Timestamps are opaque
  text passed in, so "the new timestamp is not earlier than the old one" depends on the
  clock and is not stated.
- React scheduling: the lazy state initialiser, when the storage effect runs, and
  setter batching or stale closures. Each handler is modelled as one atomic step.
- App.NoteStore.Load requires a successful load: when parsing throws
  (src/App.jsx:8) the component never mounts, which `InitialNotes` records as
  `ParseError`.
- The handlers `handleTitleChange` and `handleContentChange` (src/App.jsx:47-55) are
  never called; the inline handlers at lines 120-121 and 139-140 compute the same
  record and are the ones modelled.
- App.NoteStore.EditTitle and App.NoteStore.EditContent require a selected note.
  The title field and content area exist only while a note is selected
  (src/App.jsx:114), so the handlers never run with a `null` selection.
- Rendering, CSS classes, icons, the highlight of the selected entry, and truncation of
  the preview line (src/App.jsx:57-171 apart from lines 75, 98, 120-121 and 139-140): presentation only.
