/**
 * The note collection as values: the Note record, the partial update that
 * updateNote spreads over a note, and each handler of the page as a function
 * from the old collection (or selection) to the new one, with what it
 * promises about the notes it touches and those it leaves alone.
 */
module Notes {
  import opened Text
  import opened Sequences

  datatype Option<T> = None | Some(value: T) {
    function GetOr(default: T): T {
      match this
      case Some(v) => v
      case None => default
    }
  }

  /** One note; createdAt is the creation time in milliseconds since the epoch. */
  datatype Note = Note(id: string, title: string, content: string, createdAt: int, isArchived: bool)

  /**
   * Partial<Note>: the fields an update carries. Spreading it over a note
   * replaces exactly the fields that are present.
   */
  datatype NoteUpdate = NoteUpdate(
    id: Option<string>,
    title: Option<string>,
    content: Option<string>,
    createdAt: Option<int>,
    isArchived: Option<bool>)

  /** The title createNote falls back to when the trimmed title is empty. */
  const DefaultTitle: string := "Untitled"

  /** The update archiveNote (true) and unarchiveNote (false) pass to updateNote. */
  function ArchiveFlag(archived: bool): NoteUpdate {
    NoteUpdate(None, None, None, None, Some(archived))
  }

  /** The ids of the notes in the collection. */
  function Ids(notes: seq<Note>): set<string> {
    set n | n in notes :: n.id
  }

  /** No two notes of the collection share an id. */
  predicate UniqueIds(notes: seq<Note>) {
    forall i, j :: 0 <= i < j < |notes| ==> notes[i].id != notes[j].id
  }

  /** With unique ids there is exactly one note per id: as many ids as notes. */
  lemma {:induction false} UniqueIdsCount(notes: seq<Note>)
    ensures UniqueIds(notes) ==> |Ids(notes)| == |notes|
  {
    if notes != [] && UniqueIds(notes) {
      var tail := notes[1..];
      UniqueTail(notes);
      UniqueIdsCount(tail);
      PrependKeepsUnique(notes[0], tail);
      assert notes == [notes[0]] + tail;
    }
  }

  /** Behind the first note of a collection with unique ids: unique ids, none of them the first's. */
  lemma UniqueTail(notes: seq<Note>)
    requires notes != [] && UniqueIds(notes)
    ensures UniqueIds(notes[1..]) && notes[0].id !in Ids(notes[1..])
  {
    var tail := notes[1..];
    forall n | n in tail ensures n.id != notes[0].id {
      var j :| 0 <= j < |tail| && tail[j] == n;
      assert notes[j + 1] == n;
    }
  }

  // ---------------------------------------------------------------- createNote

  /**
   * createNote: nothing happens when title and content are both blank; otherwise
   * a note built from the trimmed draft is put in front of the others.
   */
  function Created(notes: seq<Note>, title: string, content: string, id: string, now: int): (r: seq<Note>)
    ensures AllWhiteSpace(title) && AllWhiteSpace(content) ==> r == notes
    ensures !(AllWhiteSpace(title) && AllWhiteSpace(content)) ==>
      && |r| == |notes| + 1
      && r[1..] == notes
      && r[0].id == id && r[0].createdAt == now && !r[0].isArchived
      && r[0].content == Trim(content)
      && r[0].title == (if AllWhiteSpace(title) then DefaultTitle else Trim(title))
  {
    if Trim(title) != "" || Trim(content) != "" then
      var note := Note(id, if Trim(title) != "" then Trim(title) else DefaultTitle, Trim(content), now, false);
      [note] + notes
    else
      notes
  }

  /** A created note's title is never blank and never starts or ends with white space. */
  lemma CreatedTitle(notes: seq<Note>, title: string, content: string, id: string, now: int)
    requires !(AllWhiteSpace(title) && AllWhiteSpace(content))
    ensures var t := Created(notes, title, content, id, now)[0].title;
      t != [] && !IsWhiteSpace(t[0]) && !IsWhiteSpace(t[|t| - 1])
  {
    var t := Created(notes, title, content, id, now)[0].title;
    if AllWhiteSpace(title) {
      assert t == DefaultTitle;
      assert t[0] == 'U' && t[|t| - 1] == 'd';
    } else {
      assert t == Trim(title);
    }
  }

  /** Creating with an id not yet in use keeps the ids unique and adds exactly that id. */
  lemma CreatedKeepsUnique(notes: seq<Note>, title: string, content: string, id: string, now: int)
    requires UniqueIds(notes) && id !in Ids(notes)
    ensures UniqueIds(Created(notes, title, content, id, now))
    ensures Ids(Created(notes, title, content, id, now)) ==
      if AllWhiteSpace(title) && AllWhiteSpace(content) then Ids(notes) else Ids(notes) + {id}
  {
    var r := Created(notes, title, content, id, now);
    if !(AllWhiteSpace(title) && AllWhiteSpace(content)) {
      assert r == [r[0]] + r[1..];
      PrependKeepsUnique(r[0], notes);
    }
  }

  /** Putting a note with a new id in front keeps the ids unique. */
  lemma PrependKeepsUnique(n: Note, notes: seq<Note>)
    requires UniqueIds(notes) && n.id !in Ids(notes)
    ensures UniqueIds([n] + notes)
    ensures Ids([n] + notes) == Ids(notes) + {n.id}
  {
    var r := [n] + notes;
    forall j | 0 < j < |r| ensures r[0].id != r[j].id {
      assert r[j] == notes[j - 1];
      assert r[j] in notes;
    }
  }

  // ---------------------------------------------------------------- updateNote

  /** { ...note, ...updates }: the fields present in u replace the note's. */
  function Apply(n: Note, u: NoteUpdate): (r: Note)
    ensures u.id.Some? ==> r.id == u.id.value
    ensures u.id.None? ==> r.id == n.id
    ensures u.title.Some? ==> r.title == u.title.value
    ensures u.title.None? ==> r.title == n.title
    ensures u.content.Some? ==> r.content == u.content.value
    ensures u.content.None? ==> r.content == n.content
    ensures u.createdAt.Some? ==> r.createdAt == u.createdAt.value
    ensures u.createdAt.None? ==> r.createdAt == n.createdAt
    ensures u.isArchived.Some? ==> r.isArchived == u.isArchived.value
    ensures u.isArchived.None? ==> r.isArchived == n.isArchived
    ensures u == NoteUpdate(None, None, None, None, None) ==> r == n
  {
    Note(
      u.id.GetOr(n.id),
      u.title.GetOr(n.title),
      u.content.GetOr(n.content),
      u.createdAt.GetOr(n.createdAt),
      u.isArchived.GetOr(n.isArchived))
  }

  /** Spreading the same update twice is spreading it once. */
  lemma ApplyIdempotent(n: Note, u: NoteUpdate)
    ensures Apply(Apply(n, u), u) == Apply(n, u)
  {
  }

  /**
   * updateNote: every note whose id matches gets the update; the others, the
   * length and the order are untouched. An id nobody has changes nothing.
   */
  function Updated(notes: seq<Note>, id: string, u: NoteUpdate): (r: seq<Note>)
    ensures |r| == |notes|
    ensures forall i :: 0 <= i < |notes| && notes[i].id == id ==> r[i] == Apply(notes[i], u)
    ensures forall i :: 0 <= i < |notes| && notes[i].id != id ==> r[i] == notes[i]
    ensures id !in Ids(notes) ==> r == notes
  {
    var r := Map(notes, (n: Note) => if n.id == id then Apply(n, u) else n);
    assert id !in Ids(notes) ==> forall i :: 0 <= i < |notes| ==> notes[i].id != id by {
      if id !in Ids(notes) {
        forall i | 0 <= i < |notes| ensures notes[i].id != id {
          assert notes[i] in notes;
        }
      }
    }
    r
  }

  /** An update that carries neither id nor createdAt keeps every note's id and creation time. */
  lemma UpdatedKeepsIdentity(notes: seq<Note>, id: string, u: NoteUpdate)
    requires u.id.None? && u.createdAt.None?
    ensures forall i :: 0 <= i < |notes| ==>
      Updated(notes, id, u)[i].id == notes[i].id && Updated(notes, id, u)[i].createdAt == notes[i].createdAt
    ensures Ids(Updated(notes, id, u)) == Ids(notes)
    ensures UniqueIds(notes) ==> UniqueIds(Updated(notes, id, u))
  {
    var r := Updated(notes, id, u);
    SameIds(notes, r);
  }

  /** Two collections whose notes have the same ids position by position have the same id set. */
  lemma SameIds(a: seq<Note>, b: seq<Note>)
    requires |a| == |b| && forall i :: 0 <= i < |a| ==> a[i].id == b[i].id
    ensures Ids(a) == Ids(b)
    ensures UniqueIds(a) <==> UniqueIds(b)
  {
    forall x | x in Ids(a) ensures x in Ids(b) {
      var n :| n in a && n.id == x;
      var i :| 0 <= i < |a| && a[i] == n;
      assert b[i] in b;
    }
    forall x | x in Ids(b) ensures x in Ids(a) {
      var n :| n in b && n.id == x;
      var i :| 0 <= i < |b| && b[i] == n;
      assert a[i] in a;
    }
  }

  /** Repeating an update with the same id and fields changes nothing more. */
  lemma UpdatedIdempotent(notes: seq<Note>, id: string, u: NoteUpdate)
    ensures Updated(Updated(notes, id, u), id, u) == Updated(notes, id, u)
  {
    var once := Updated(notes, id, u);
    var twice := Updated(once, id, u);
    forall i | 0 <= i < |notes| ensures twice[i] == once[i] {
      ApplyIdempotent(notes[i], u);
    }
  }

  // ---------------------------------------------------- archiveNote / unarchiveNote

  /** archiveNote: the matching notes become archived; nothing else about any note changes. */
  function Archived(notes: seq<Note>, id: string): (r: seq<Note>)
    ensures |r| == |notes|
    ensures forall i :: 0 <= i < |notes| ==>
      r[i] == if notes[i].id == id then notes[i].(isArchived := true) else notes[i]
  {
    Updated(notes, id, ArchiveFlag(true))
  }

  /** unarchiveNote: the matching notes become active; nothing else about any note changes. */
  function Unarchived(notes: seq<Note>, id: string): (r: seq<Note>)
    ensures |r| == |notes|
    ensures forall i :: 0 <= i < |notes| ==>
      r[i] == if notes[i].id == id then notes[i].(isArchived := false) else notes[i]
  {
    Updated(notes, id, ArchiveFlag(false))
  }

  /** Unarchiving after archiving leaves the note as unarchiving alone would. */
  lemma UnarchiveAfterArchive(notes: seq<Note>, id: string)
    ensures Unarchived(Archived(notes, id), id) == Unarchived(notes, id)
  {
    var a := Archived(notes, id);
    var l := Unarchived(a, id);
    var r := Unarchived(notes, id);
    forall i | 0 <= i < |notes| ensures l[i] == r[i] {
      assert a[i].id == notes[i].id;
    }
  }

  /** Archiving keeps the ids, so it keeps them unique. */
  lemma ArchivedKeepsIds(notes: seq<Note>, id: string, archived: bool)
    ensures Ids(Updated(notes, id, ArchiveFlag(archived))) == Ids(notes)
    ensures UniqueIds(notes) ==> UniqueIds(Updated(notes, id, ArchiveFlag(archived)))
  {
    UpdatedKeepsIdentity(notes, id, ArchiveFlag(archived));
  }

  // ---------------------------------------------------------------- deleteNote

  /** The filter test of deleteNote. */
  function OtherThan(id: string): Note -> bool {
    (n: Note) => n.id != id
  }

  /**
   * deleteNote: every note with that id is gone; each other note is kept, every
   * copy of it, in the original relative order.
   */
  function Deleted(notes: seq<Note>, id: string): (r: seq<Note>)
    ensures id !in Ids(r)
    ensures Ids(r) == Ids(notes) - {id}
    ensures IsSubsequence(r, notes)
    ensures forall n: Note :: n.id != id ==> multiset(r)[n] == multiset(notes)[n]
  {
    var p := OtherThan(id);
    var r := Filter(notes, p);
    FilterMembers(notes, p);
    FilterIsSubsequence(notes, p);
    FilterCount(notes, p);
    r
  }

  /** In a collection with unique ids, deleting a present id removes exactly one note. */
  lemma DeletedOne(notes: seq<Note>, id: string)
    requires UniqueIds(notes)
    ensures UniqueIds(Deleted(notes, id))
    ensures |Deleted(notes, id)| == if id in Ids(notes) then |notes| - 1 else |notes|
  {
    SubsequenceKeepsUnique(Deleted(notes, id), notes);
    FilterDropsOne(notes, id, OtherThan(id));
  }

  /** Filtering out one id from a collection with unique ids drops at most one note. */
  lemma {:induction false} FilterDropsOne(notes: seq<Note>, id: string, p: Note -> bool)
    requires UniqueIds(notes)
    requires forall n :: p(n) == (n.id != id)
    ensures |Filter(notes, p)| == if id in Ids(notes) then |notes| - 1 else |notes|
  {
    if notes != [] {
      var tail := notes[1..];
      assert UniqueIds(tail);
      FilterDropsOne(tail, id, p);
      assert Ids(notes) == {notes[0].id} + Ids(tail) by {
        assert notes == [notes[0]] + tail;
      }
    }
  }

  /** Deleting notes never makes two ids collide. */
  lemma {:induction false} SubsequenceKeepsUnique(a: seq<Note>, b: seq<Note>)
    requires IsSubsequence(a, b) && UniqueIds(b)
    ensures UniqueIds(a)
    decreases |b|
  {
    if a != [] {
      assert UniqueIds(b[1..]);
      if a[0] == b[0] && IsSubsequence(a[1..], b[1..]) {
        SubsequenceKeepsUnique(a[1..], b[1..]);
        SubsequenceMembers(a[1..], b[1..]);
        forall j | 0 < j < |a| ensures a[0].id != a[j].id {
          assert a[j] == a[1..][j - 1];
          assert a[j] in b[1..];
          var k :| 0 <= k < |b[1..]| && b[1..][k] == a[j];
          assert b[k + 1] == a[j];
        }
      } else {
        SubsequenceKeepsUnique(a, b[1..]);
      }
    }
  }

  // ------------------------------------------------------- toggleNoteSelection

  /** toggleNoteSelection: id changes membership; every other id keeps its own. */
  function Toggled(selected: set<string>, id: string): (r: set<string>)
    ensures id in r <==> id !in selected
    ensures forall x :: x != id ==> (x in r <==> x in selected)
  {
    if id in selected then selected - {id} else selected + {id}
  }

  /** Toggling the same id twice restores the selection. */
  lemma ToggleTwice(selected: set<string>, id: string)
    ensures Toggled(Toggled(selected, id), id) == selected
  {
  }

  // ---------------------------------------- deleteSelectedNotes / archiveSelectedNotes

  /** The filter test of deleteSelectedNotes. */
  function Unselected(selected: set<string>): Note -> bool {
    (n: Note) => n.id !in selected
  }

  /**
   * deleteSelectedNotes: exactly the notes whose id is not selected remain,
   * every copy of them, in the original relative order.
   */
  function SelectedDeleted(notes: seq<Note>, selected: set<string>): (r: seq<Note>)
    ensures Ids(r) == Ids(notes) - selected
    ensures IsSubsequence(r, notes)
    ensures forall n: Note :: multiset(r)[n] == if n.id in selected then 0 else multiset(notes)[n]
  {
    var p := Unselected(selected);
    var r := Filter(notes, p);
    FilterMembers(notes, p);
    FilterIsSubsequence(notes, p);
    FilterCount(notes, p);
    r
  }

  /**
   * archiveSelectedNotes: the selected notes become archived, nothing else about
   * them changes, and the other notes are untouched; length and order are kept.
   */
  function SelectedArchived(notes: seq<Note>, selected: set<string>): (r: seq<Note>)
    ensures |r| == |notes|
    ensures forall i :: 0 <= i < |notes| ==>
      r[i] == if notes[i].id in selected then notes[i].(isArchived := true) else notes[i]
    ensures Ids(r) == Ids(notes)
    ensures UniqueIds(notes) ==> UniqueIds(r)
  {
    var r := Map(notes, ArchiveIfSelected(selected));
    SameIds(notes, r);
    r
  }

  /** The per-note step of archiveSelectedNotes. */
  function ArchiveIfSelected(selected: set<string>): Note -> Note {
    (n: Note) => if n.id in selected then n.(isArchived := true) else n
  }

  // ------------------------------------------------------------- filteredNotes

  /** The search half of the filter: the query, lower-cased, is in the lower-cased title or content. */
  predicate MatchesSearch(n: Note, query: string)
    ensures query == "" ==> MatchesSearch(n, query)
    ensures MatchesSearch(n, query) ==> |query| <= |n.title| || |query| <= |n.content|
  {
    IncludesEmpty(Lower(n.title));
    Includes(Lower(n.title), Lower(query)) || Includes(Lower(n.content), Lower(query))
  }

  /** The whole filter: the search matches and the note is in the partition being shown. */
  predicate Matches(n: Note, query: string, showArchived: bool)
    ensures Matches(n, query, showArchived) ==> n.isArchived == showArchived
    ensures query == "" ==> (Matches(n, query, showArchived) <==> n.isArchived == showArchived)
  {
    MatchesSearch(n, query) && (if showArchived then n.isArchived else !n.isArchived)
  }

  /** The filter test of filteredNotes for one query and one partition. */
  function Matcher(query: string, showArchived: bool): Note -> bool {
    (n: Note) => Matches(n, query, showArchived)
  }

  /** The notes of one partition, whatever their text. */
  function InPartition(showArchived: bool): Note -> bool {
    (n: Note) => n.isArchived == showArchived
  }

  /**
   * filteredNotes: the notes of the partition being shown whose title or content
   * contains the query regardless of ASCII case, in collection order.
   */
  function FilteredNotes(notes: seq<Note>, query: string, showArchived: bool): (r: seq<Note>)
    ensures IsSubsequence(r, notes)
    ensures forall n: Note :: n in r <==>
      && n in notes
      && n.isArchived == showArchived
      && ((exists i :: OccursAt(Lower(n.title), Lower(query), i))
          || (exists i :: OccursAt(Lower(n.content), Lower(query), i)))
    ensures forall n: Note :: multiset(r)[n] == if Matches(n, query, showArchived) then multiset(notes)[n] else 0
  {
    var p := Matcher(query, showArchived);
    var r := Filter(notes, p);
    FilterMembers(notes, p);
    FilterIsSubsequence(notes, p);
    FilterCount(notes, p);
    forall n ensures MatchesSearch(n, query) <==>
      (exists i :: OccursAt(Lower(n.title), Lower(query), i))
      || (exists i :: OccursAt(Lower(n.content), Lower(query), i))
    {
      IncludesIff(Lower(n.title), Lower(query));
      IncludesIff(Lower(n.content), Lower(query));
    }
    r
  }

  /** With an empty query the filter keeps the whole partition being shown. */
  lemma EmptyQueryKeepsPartition(notes: seq<Note>, showArchived: bool)
    ensures FilteredNotes(notes, "", showArchived) == Filter(notes, InPartition(showArchived))
  {
    forall i | 0 <= i < |notes| ensures MatchesSearch(notes[i], "") {
      IncludesEmpty(Lower(notes[i].title));
    }
    FilterAgrees(notes, Matcher("", showArchived), InPartition(showArchived));
  }

  /** Filtering the filtered list again gives the same list. */
  lemma FilteredIdempotent(notes: seq<Note>, query: string, showArchived: bool)
    ensures FilteredNotes(FilteredNotes(notes, query, showArchived), query, showArchived)
         == FilteredNotes(notes, query, showArchived)
  {
    FilterIdempotent(notes, Matcher(query, showArchived));
  }

  /** A note that was selected or already archived. */
  function SelectedOrArchived(selected: set<string>): Note -> bool {
    (n: Note) => n.isArchived || n.id in selected
  }

  /**
   * After archiveSelectedNotes, the archived view with an empty query is exactly the
   * notes that were selected or already archived, in order, now all archived.
   */
  lemma ArchivedViewAfterArchiveSelected(notes: seq<Note>, selected: set<string>)
    ensures FilteredNotes(SelectedArchived(notes, selected), "", true)
         == Map(Filter(notes, SelectedOrArchived(selected)), ArchiveIfSelected(selected))
  {
    var after := SelectedArchived(notes, selected);
    assert after == Map(notes, ArchiveIfSelected(selected));
    EmptyQueryKeepsPartition(after, true);
    FilterMap(notes, ArchiveIfSelected(selected), InPartition(true), SelectedOrArchived(selected));
  }
}
