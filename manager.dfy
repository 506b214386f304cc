/**
 * The page's note state as an object: the collection (newest first) and the set
 * of selected ids, with one method per handler. Each handler replaces the state
 * fields, as the page's setNotes and setSelectedNotes do, and says what the new
 * state is in terms of the old one.
 */
module Manager {
  import opened Text
  import opened Notes

  class NoteManager {
    var notes: seq<Note>
    var selected: set<string>

    /**
     * The collection invariant: ids are unique and never empty, and every selected
     * id belongs to a note. The handlers keep it under the conditions each one
     * states. It gives exactly one note per id.
     */
    ghost predicate Valid()
      reads this
      ensures Valid() ==> |Ids(notes)| == |notes| && |selected| <= |notes|
    {
      UniqueIdsCount(notes);
      SubsetCard(selected, Ids(notes));
      UniqueIds(notes) && "" !in Ids(notes) && selected <= Ids(notes)
    }

    /** The state on first render: no notes, nothing selected. */
    constructor ()
      ensures notes == [] && selected == {}
      ensures Valid()
    {
      notes := [];
      selected := {};
    }

    /**
     * createNote with the draft (title, content), the id the page derives from
     * the clock, and the clock reading now.
     */
    method CreateNote(title: string, content: string, id: string, now: int)
      modifies this
      ensures notes == Created(old(notes), title, content, id, now)
      ensures selected == old(selected)
      ensures old(Valid()) && id != "" && id !in Ids(old(notes)) ==> Valid()
    {
      ghost var before := notes;
      var trimmedTitle := Trim(title);
      var trimmedContent := Trim(content);
      if trimmedTitle != "" || trimmedContent != "" {
        var note := Note(id, if trimmedTitle != "" then trimmedTitle else DefaultTitle, trimmedContent, now, false);
        notes := [note] + notes;
      }
      assert notes == Created(before, title, content, id, now);
      if old(Valid()) && id != "" && id !in Ids(before) {
        CreatedKeepsUnique(before, title, content, id, now);
      }
    }

    /** updateNote: spreads the update over every note whose id matches. */
    method UpdateNote(id: string, u: NoteUpdate)
      modifies this
      ensures notes == Updated(old(notes), id, u)
      ensures selected == old(selected)
      ensures old(Valid()) && u.id.None? ==> Valid()
    {
      if u.id.None? && u.createdAt.None? {
        UpdatedKeepsIdentity(notes, id, u);
      } else if u.id.None? {
        SameIds(notes, Updated(notes, id, u));
      }
      notes := Updated(notes, id, u);
    }

    /** deleteNote: drops the note and purges its id from the selection. */
    method DeleteNote(id: string)
      modifies this
      ensures notes == Deleted(old(notes), id)
      ensures selected == old(selected) - {id}
      ensures old(Valid()) ==> Valid()
    {
      if Valid() {
        DeletedOne(notes, id);
      }
      notes := Deleted(notes, id);
      var newSet := selected;
      newSet := newSet - {id};
      selected := newSet;
    }

    /** archiveNote: updateNote with isArchived set. */
    method ArchiveNote(id: string)
      modifies this
      ensures notes == Archived(old(notes), id)
      ensures selected == old(selected)
      ensures old(Valid()) ==> Valid()
    {
      UpdateNote(id, ArchiveFlag(true));
    }

    /** unarchiveNote: updateNote with isArchived cleared. */
    method UnarchiveNote(id: string)
      modifies this
      ensures notes == Unarchived(old(notes), id)
      ensures selected == old(selected)
      ensures old(Valid()) ==> Valid()
    {
      UpdateNote(id, ArchiveFlag(false));
    }

    /**
     * toggleNoteSelection: flips the id's membership on a copy of the selection.
     * The id is not checked against the collection, so the invariant survives
     * only when the id is deselected or belongs to a note.
     */
    method ToggleNoteSelection(id: string)
      modifies this
      ensures selected == Toggled(old(selected), id)
      ensures notes == old(notes)
      ensures old(Valid()) && (id in old(selected) || id in Ids(notes)) ==> Valid()
    {
      var newSet := selected;
      if id in newSet {
        newSet := newSet - {id};
      } else {
        newSet := newSet + {id};
      }
      selected := newSet;
    }

    /** deleteSelectedNotes: drops every selected note, then clears the selection. */
    method DeleteSelectedNotes()
      modifies this
      ensures notes == SelectedDeleted(old(notes), old(selected))
      ensures selected == {}
      ensures old(Valid()) ==> Valid()
    {
      var remaining := SelectedDeleted(notes, selected);
      if UniqueIds(notes) {
        SubsequenceKeepsUnique(remaining, notes);
      }
      notes := remaining;
      selected := {};
    }

    /** archiveSelectedNotes: archives every selected note, then clears the selection. */
    method ArchiveSelectedNotes()
      modifies this
      ensures notes == SelectedArchived(old(notes), old(selected))
      ensures selected == {}
      ensures old(Valid()) ==> Valid()
    {
      notes := SelectedArchived(notes, selected);
      selected := {};
    }
  }

  /** A subset is no larger than the set that holds it. */
  lemma {:induction false} SubsetCard(a: set<string>, b: set<string>)
    ensures a <= b ==> |a| <= |b|
    decreases |b|
  {
    if a <= b && a != {} {
      var x :| x in a;
      SubsetCard(a - {x}, b - {x});
    }
  }
}
