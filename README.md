# Note collection manager of the notes page

The notes page (`app/page.tsx`) keeps two pieces of state: an ordered list of
notes, newest first, and a set of selected note ids. Its handlers replace that
state: `createNote`, `updateNote`, `deleteNote`, `archiveNote`,
`unarchiveNote`, `toggleNoteSelection`, `deleteSelectedNotes` and
`archiveSelectedNotes`. Two read-only pieces sit beside them. `filteredNotes` is
the search-and-partition view. `formattedDate` is the relative-age label.

The Dafny model has five modules:

- `Text` (`text.dfy`) models the string primitives the page uses:
  `String.prototype.trim` with the ECMAScript white-space set, `toLowerCase`
  restricted to ASCII, `includes`, and the decimal text a template literal
  prints for a minute count.
- `Sequences` (`sequences.dfy`) models `Array.prototype.filter` and `map`. It
  proves that `filter` keeps exactly the passing elements, every copy of each,
  in their original relative order.
- `Notes` (`notes.dfy`) holds the `Note` record and `Partial<Note>` updates.
  Each handler is a function from the old collection or selection to the new
  one. Beside them are lemmas: idempotence, undo (toggling twice), unique ids,
  what the archived view shows after a bulk archive, and what an empty query
  keeps.
- `Manager` (`manager.dfy`) holds the class `NoteManager`, with the fields
  `notes` and `selected` and one method per handler. Each method has
  `modifies this`. Its postconditions give the new state as the matching
  `Notes` function of the old state. They also say when the invariant `Valid()`
  (unique, non-empty ids, selection inside the collection) survives.
- `RelativeAge` (`relative_age.dfy`) models `formattedDate` as a function of the
  current time and the creation time, both in integer milliseconds.

The clock and the generated id are parameters. `Date.now()` and `new Date()`
become the `now` argument, and `Date.now().toString()` becomes the `id`
argument.

## Model

| member | source | states |
|---|---|---|
| `Text.Trim` | app/page.tsx:67 | trim returns a slice of its input with only white space around it. It is empty exactly when the input is all white space. A non-empty result starts and ends with a non-white-space character. |
| `Text.TrimStart` | app/page.tsx:70-71 | The result is a suffix of the input. Everything before it is white space, and its first character is not. |
| `Text.TrimEnd` | app/page.tsx:70-71 | The result is a prefix of the input. Everything after it is white space, and its last character is not. |
| `Text.TrimIdempotent` | app/page.tsx:70-71 | Trimming an already trimmed string changes nothing. |
| `Text.LowerChar` | app/page.tsx:126-127 | Lower-casing maps `A`..`Z` onto `a`..`z`, leaves every other character alone, and never yields an upper-case ASCII letter. |
| `Text.Lower` | app/page.tsx:126-127 | Lower-casing a string keeps its length and lower-cases it character by character. |
| `Text.LowerIdempotent` | app/page.tsx:126-127 | Lower-casing twice is the same as lower-casing once. |
| `Text.IncludesIff` | app/page.tsx:126-127 | `includes(s, q)` holds exactly when `q` occurs in `s` at some index. Both directions are proved. |
| `Text.Includes` | app/page.tsx:126-127 | The empty query is found in every string. A found query is no longer than the string, and one as long as the string is the string itself. |
| `Text.IncludesEmpty` | app/page.tsx:126-127 | The empty query is found in every string. |
| `Text.NatToString` | app/page.tsx:59 | The minute count prints as decimal digits with no leading zero, and the digits read back as the same number. |
| `Sequences.Filter` | app/page.tsx:86 | `filter` never lengthens the list, and every kept element passes the test. |
| `Sequences.Map` | app/page.tsx:82 | `map` keeps the length and applies the function at every position. |
| `Sequences.FilterMembers` | app/page.tsx:115 | An element is kept exactly when it is in the list and passes the test. |
| `Sequences.FilterIsSubsequence` | app/page.tsx:124-130 | `filter` keeps the surviving elements in their original relative order. |
| `Sequences.FilterCount` | app/page.tsx:115 | Every copy of a passing element is kept, and no copy of a failing one. |
| `Sequences.FilterKeepsAll` | app/page.tsx:124 | `filter` returns its input unchanged exactly when every element passes. |
| `Sequences.FilterIdempotent` | app/page.tsx:124 | Filtering twice by the same test is the same as filtering once. |
| `Sequences.SubsequenceMembers` | app/page.tsx:86 | Every element of an order-preserving subsequence is an element of the original list. |
| `Notes.Created` | app/page.tsx:66-79 | If title and content are both blank, the collection is unchanged. Otherwise it grows by one note in front, and the old list follows unchanged. The new note has the given id and time, is not archived, and holds the trimmed content. Its title is the trimmed title, or `"Untitled"` if that is blank. |
| `Notes.CreatedTitle` | app/page.tsx:70 | A created note's title is never empty and never starts or ends with white space. |
| `Notes.CreatedKeepsUnique` | app/page.tsx:68-75 | Creating with an unused id keeps the ids unique and adds exactly that id. A blank draft adds no id. |
| `Notes.PrependKeepsUnique` | app/page.tsx:75 | Putting a note with a new id in front keeps the ids unique. |
| `Notes.Apply` | app/page.tsx:82 | `{ ...note, ...updates }`: each of the five fields present in the update replaces the note's field, and each absent one keeps the note's. An empty update returns the note unchanged. |
| `Notes.ApplyIdempotent` | app/page.tsx:82 | Spreading the same partial update over a note twice is the same as spreading it once. |
| `Notes.Updated` | app/page.tsx:81-83 | `updateNote` keeps the length and order. Every note with the id gets the update, and every other note is untouched. An id that no note has changes nothing. |
| `Notes.UpdatedKeepsIdentity` | app/page.tsx:82 | An update without id and createdAt keeps every note's id and creation time, the id set, and unique ids. |
| `Notes.SameIds` | app/page.tsx:82 | Two lists with the same ids position by position have the same id set. One has unique ids exactly when the other does. |
| `Notes.UpdatedIdempotent` | app/page.tsx:82 | Repeating the same update with the same id changes nothing more. |
| `Notes.Archived` | app/page.tsx:94-96 | `archiveNote` sets `isArchived` on the matching notes. Every other field of those notes, and every other note, is unchanged. |
| `Notes.Unarchived` | app/page.tsx:98-100 | `unarchiveNote` clears `isArchived` on the matching notes. Every other field of those notes, and every other note, is unchanged. |
| `Notes.UnarchiveAfterArchive` | app/page.tsx:94-100 | Unarchiving after archiving gives the same collection as unarchiving alone. |
| `Notes.ArchivedKeepsIds` | app/page.tsx:94-100 | Archiving or unarchiving keeps the id set and keeps ids unique. |
| `Notes.Deleted` | app/page.tsx:85-86 | After `deleteNote`, no note with the id remains, and the id set loses exactly that id. The result is an order-preserving subsequence, and every copy of each other note stays. |
| `Notes.DeletedOne` | app/page.tsx:86 | With unique ids, deleting a present id removes exactly one note, deleting an absent id removes none, and the ids stay unique. |
| `Notes.FilterDropsOne` | app/page.tsx:86 | With unique ids, filtering out one id shortens the list by one if the id is present and by zero otherwise. |
| `Notes.SubsequenceKeepsUnique` | app/page.tsx:115 | Removing notes never makes two ids collide. |
| `Notes.Toggled` | app/page.tsx:102-112 | `toggleNoteSelection` flips the id's membership in the selection. Every other id keeps its membership. |
| `Notes.ToggleTwice` | app/page.tsx:102-112 | Toggling the same id twice restores the selection. |
| `Notes.SelectedDeleted` | app/page.tsx:114-117 | Exactly the notes whose id is not selected remain, every copy of them, in their original order. The id set loses exactly the selected ids. |
| `Notes.SelectedArchived` | app/page.tsx:119-122 | The length is kept. Selected notes become archived with nothing else changed, and unselected notes are untouched. The id set is the same, and unique ids stay unique. |
| `Notes.MatchesSearch` | app/page.tsx:125-127 | The empty query matches every note. A matching query is no longer than the note's title or no longer than its content. |
| `Notes.Matches` | app/page.tsx:125-129 | A note passes only if its `isArchived` equals `showArchived`. With an empty query it passes exactly when they are equal. |
| `Notes.FilteredNotes` | app/page.tsx:124-130 | The result is an order-preserving subsequence of the notes. A note is in it exactly when it is in the collection, its `isArchived` equals `showArchived`, and the lower-cased query occurs in its lower-cased title or content. Every copy of a passing note is kept, and no copy of a failing one. |
| `Notes.EmptyQueryKeepsPartition` | app/page.tsx:124-130 | With an empty query, the view is exactly the partition being shown. |
| `Notes.FilteredIdempotent` | app/page.tsx:124-130 | Filtering the view again with the same query and partition gives the same view. |
| `Notes.ArchivedViewAfterArchiveSelected` | app/page.tsx:119-130 | After `archiveSelectedNotes`, the archived view with an empty query holds exactly the notes that were selected or already archived. They keep their order and are now all archived. |
| `Notes.UniqueIdsCount` | app/page.tsx:22 | With unique ids, there are exactly as many ids as notes. |
| `Notes.UniqueTail` | app/page.tsx:22 | Behind the first note of a list with unique ids, the ids are unique and none equals the first note's id. |
| `Manager.NoteManager.Valid` | app/page.tsx:22-23 | The invariant: ids unique and never empty, and every selected id belongs to a note. Whenever it holds there is one note per id, and no more ids are selected than there are notes. |
| `Manager.SubsetCard` | app/page.tsx:23 | A subset of a set is no larger than the set. |
| `Manager.NoteManager.constructor` | app/page.tsx:22-23 | The page starts with no notes and nothing selected, and the invariant holds. |
| `Manager.NoteManager.CreateNote` | app/page.tsx:66-79 | The new collection is `Created` of the old one, and the selection is unchanged. The invariant is kept when the id is non-empty and unused. |
| `Manager.NoteManager.UpdateNote` | app/page.tsx:81-83 | The new collection is `Updated` of the old one, and the selection is unchanged. The invariant is kept when the update carries no id. |
| `Manager.NoteManager.DeleteNote` | app/page.tsx:85-92 | The new collection is `Deleted` of the old one. The selection loses exactly the id, and the invariant is kept. |
| `Manager.NoteManager.ArchiveNote` | app/page.tsx:94-96 | The new collection is `Archived` of the old one, and the selection is unchanged. The invariant is kept. |
| `Manager.NoteManager.UnarchiveNote` | app/page.tsx:98-100 | The new collection is `Unarchived` of the old one, and the selection is unchanged. The invariant is kept. |
| `Manager.NoteManager.ToggleNoteSelection` | app/page.tsx:102-112 | The selection becomes `Toggled` of the old one, and the notes are unchanged. The invariant is kept when the id is deselected or belongs to a note. |
| `Manager.NoteManager.DeleteSelectedNotes` | app/page.tsx:114-117 | The new collection is `SelectedDeleted` of the old one with the old selection. The selection becomes empty, whether or not anything matched, and the invariant is kept. |
| `Manager.NoteManager.ArchiveSelectedNotes` | app/page.tsx:119-122 | The new collection is `SelectedArchived` of the old one with the old selection. The selection becomes empty, and the invariant is kept. |
| `RelativeAge.MinutesLabel` | app/page.tsx:59 | For a positive minute count, the label is its decimal digits followed by `" minute ago"` for 1 and `" minutes ago"` otherwise. Every label ends in `" ago"`. |
| `RelativeAge.FormattedDate` | app/page.tsx:47-64 | The label is `"Just now"` exactly when less than 60 000 ms have passed, which includes creation times in the future. It is `""` exactly when an hour or more has passed. In between it is the minute count m = floor(ms / 60 000), with 1 ≤ m < 60, followed by `" minute ago"` when m = 1 and `" minutes ago"` otherwise. |
| `RelativeAge.FloorOfFloor` | app/page.tsx:49-50 | Whole minutes of whole seconds equal whole minutes of the milliseconds. The two thresholds are the 60 000 ms and 3 600 000 ms bounds. |
| `RelativeAge.MinutesLabelReadsBack` | app/page.tsx:59 | A minute label starts with one or two digits that read back as the minute count. The rest is the singular or plural unit. |
| `RelativeAge.DecimalValueAtLeast` | app/page.tsx:59 | A numeral of three or more digits with no leading zero denotes at least 100, so a minute count below 60 prints in at most two digits. |
| `RelativeAge.JustNowExamples` | app/page.tsx:54-56 | 0 ms and 59 999 ms after creation, and a creation time 5 s ahead of the clock, all give `"Just now"`. |
| `RelativeAge.MinutesExamples` | app/page.tsx:58-60 | 90 s after creation gives `"1 minute ago"`, and 150 s gives `"2 minutes ago"`. |
| `RelativeAge.PastHourExample` | app/page.tsx:62 | 3700 s after creation gives the empty string. |

## What the code does not enforce

Some properties one might expect of the collection are not checked by the code.
The model follows the code:

- **Which fields an update may change.** `updateNote` spreads a whole
  `Partial<Note>`, so a supplied `id` or `createdAt` replaces the note's own.
  `NoteUpdate` therefore carries all five fields. The page itself only ever
  passes `title`, `content` or `isArchived`. `UpdatedKeepsIdentity` proves that
  such updates keep ids and creation times.
- **Selection inside the collection.** `toggleNoteSelection` accepts any id and
  does not check it against the collection. The model keeps the invariant only
  when the toggled id is deselected or belongs to a note.
- **Unique, non-empty ids.** `createNote` takes the id from
  `Date.now().toString()` and does not check it for uniqueness. `CreateNote`
  accepts any id. It keeps the invariant only when the id is non-empty and not
  already in use.

## Left out

- Loading from and saving to `localStorage` (app/page.tsx:31-45). This is browser
  I/O plus `JSON.parse`, `JSON.stringify` and `Date` parsing, all of which are
  library code outside this model. As a result, the save-after-every-change
  behaviour and the save/load round trip are not modelled.
- Reading the clock (app/page.tsx:48, 69, 72). `Date.now()` and `new Date()` are
  parameters: the id and `now` of `CreateNote`, and `nowMs` of `FormattedDate`.
  Rendering a timestamp as the id string is not modelled.
- Text.LowerChar: lower-cases only the ASCII letters A to Z. JavaScript's
  `toLowerCase` also maps non-ASCII letters, so a search that differs from a
  note only in the case of a non-ASCII letter matches in the page but not in
  the model.
- `includes` and `trim` work on UTF-16 code units. The model works on Unicode
  scalar values, which agree with code units for every character `trim`
  removes.
- RelativeAge.FormattedDate: treats the time difference as an exact integer
  number of milliseconds. An invalid `Date` (NaN time) is not modelled; in the
  page it would yield the empty string.
- React's state batching and updater functions. `deleteSelectedNotes` and
  `archiveSelectedNotes` filter the latest `notes` by the selection of the
  current render. Handlers run one at a time, so the model gives both methods
  the same current state.
- An update field explicitly set to `undefined` in `Partial<Note>`. The spread
  would copy `undefined` into the note. The model only has present or absent
  fields.
- UI-only state: `isCreating`, `editingId`, `searchQuery`, `showArchived`, and
  the draft reset after creation (app/page.tsx:76-77, 237-240). The search query
  and the partition are parameters of `FilteredNotes`.
- All JSX rendering. This includes the 150-character content preview
  (app/page.tsx:314) and the "N note(s) selected" text (app/page.tsx:187).
- The commented-out `Intl.DateTimeFormat` formatter (app/page.tsx:132-140).
