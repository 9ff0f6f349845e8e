/**
 * What the list screen derives from the presenter's notes: the pinned and
 * unpinned partitions, newest first, and the table arithmetic that maps a
 * (section, row) position to a note of one of them. The table's own notion
 * of how many sections it has is taken to be the data source's answer.
 */
module NotesList {
  import opened Optionals
  import opened NoteModel
  import opened Seqs
  import opened NotesStorage
  import opened NotesPresenter
  import opened StyledText
  import opened NoteCell

  const NotesHeader := "Заметки"
  const PinnedHeader := "Закреплено"
  const PinIcon := "pin.fill"
  const UnpinIcon := "pin.slash.fill"

  /** Every note is at least as recent as every note after it. */
  ghost predicate NewestFirst(ns: seq<Note>)
  {
    forall i, j :: 0 <= i < j < |ns| ==> ns[i].date >= ns[j].date
  }

  /** Puts `n` into a newest-first list, ahead of the first note that is not newer than it. */
  function Insert(n: Note, ns: seq<Note>): (r: seq<Note>)
    requires NewestFirst(ns)
    ensures NewestFirst(r)
    ensures multiset(r) == multiset(ns) + multiset{n}
    ensures |r| == |ns| + 1
    ensures r[0] == n || (|ns| > 0 && r[0] == ns[0])
    decreases |ns|
  {
    if |ns| == 0 || n.date >= ns[0].date then [n] + ns
    else
      assert ns == [ns[0]] + ns[1..];
      [ns[0]] + Insert(n, ns[1..])
  }

  /** The notes ordered by date, most recent first. */
  function SortByDateDescending(ns: seq<Note>): (r: seq<Note>)
    ensures NewestFirst(r)
    ensures multiset(r) == multiset(ns)
    decreases |ns|
  {
    if |ns| == 0 then []
    else
      assert ns == [ns[0]] + ns[1..];
      Insert(ns[0], SortByDateDescending(ns[1..]))
  }

  /** The pinned notes, newest first. */
  function PinnedNotes(notes: seq<Note>): (r: seq<Note>)
    ensures NewestFirst(r)
  {
    SortByDateDescending(Filter(notes, IsPinned))
  }

  /** The unpinned notes, newest first. */
  function NonPinnedNotes(notes: seq<Note>): (r: seq<Note>)
    ensures NewestFirst(r)
  {
    SortByDateDescending(Filter(notes, IsUnpinned))
  }

  /**
   * The pinned partition holds each pinned note as often as the presenter's
   * list does and no unpinned one; the unpinned partition the other way round.
   */
  lemma PartitionContents(notes: seq<Note>)
    ensures forall n :: multiset(PinnedNotes(notes))[n] == if n.pinned then multiset(notes)[n] else 0
    ensures forall n :: multiset(NonPinnedNotes(notes))[n] == if n.pinned then 0 else multiset(notes)[n]
  {
    FilterCount(notes, IsPinned);
    FilterCount(notes, IsUnpinned);
  }

  /** The counts of `PartitionContents` for one note. */
  lemma PartitionCount(notes: seq<Note>, x: Note)
    ensures multiset(PinnedNotes(notes))[x] == if x.pinned then multiset(notes)[x] else 0
    ensures multiset(NonPinnedNotes(notes))[x] == if x.pinned then 0 else multiset(notes)[x]
  {
    PartitionContents(notes);
  }

  /** Together the two partitions hold every note, as often as the presenter's list does. */
  lemma PartitionIsPermutation(notes: seq<Note>)
    ensures multiset(PinnedNotes(notes)) + multiset(NonPinnedNotes(notes)) == multiset(notes)
  {
    var a, b := multiset(PinnedNotes(notes)), multiset(NonPinnedNotes(notes));
    forall x ensures (a + b)[x] == multiset(notes)[x] {
      PartitionContents(notes);
      assert a[x] == if x.pinned then multiset(notes)[x] else 0;
      assert b[x] == if x.pinned then 0 else multiset(notes)[x];
    }
    assert a + b == multiset(notes);
  }

  /** The two partitions together are as long as the presenter's list. */
  lemma PartitionSizes(notes: seq<Note>)
    ensures |PinnedNotes(notes)| + |NonPinnedNotes(notes)| == |notes|
  {
    PartitionIsPermutation(notes);
    var a, b := multiset(PinnedNotes(notes)), multiset(NonPinnedNotes(notes));
    assert |a + b| == |a| + |b|;
  }

  /** No note is in both partitions. */
  lemma PartitionsAreDisjoint(notes: seq<Note>)
    ensures multiset(PinnedNotes(notes)) * multiset(NonPinnedNotes(notes)) == multiset{}
  {
    var a, b := multiset(PinnedNotes(notes)), multiset(NonPinnedNotes(notes));
    forall x ensures (a * b)[x] == 0 {
      PartitionContents(notes);
      assert x.pinned ==> b[x] == 0;
      assert !x.pinned ==> a[x] == 0;
    }
  }

  /** Two sections when the pinned partition has notes, one otherwise. */
  function NumberOfSections(notes: seq<Note>): (k: nat)
    ensures k == 1 || k == 2
  {
    if |PinnedNotes(notes)| != 0 then 2 else 1
  }

  /** The table has two sections exactly when some note of the list is pinned. */
  lemma SectionsFollowPins(notes: seq<Note>)
    ensures NumberOfSections(notes) == 2 <==> exists i :: 0 <= i < |notes| && notes[i].pinned
  {
    PartitionContents(notes);
    var pinned := PinnedNotes(notes);
    if |pinned| != 0 {
      assert pinned[0] in multiset(pinned);
      assert pinned[0] in multiset(notes);
      var i :| 0 <= i < |notes| && notes[i] == pinned[0];
    } else {
      forall i | 0 <= i < |notes| ensures !notes[i].pinned {
        assert notes[i] in multiset(notes);
      }
    }
  }

  /** The section shows the pinned partition: section 0 of a two-section table. */
  predicate InPinnedSection(notes: seq<Note>, section: int)
  {
    section == 0 && NumberOfSections(notes) != 1
  }

  /** The notes a section lists: the pinned partition for the pinned section, the unpinned one for any other. */
  function SectionNotes(notes: seq<Note>, section: int): seq<Note>
  {
    if InPinnedSection(notes, section) then PinnedNotes(notes) else NonPinnedNotes(notes)
  }

  /** How many rows a section has. */
  function NumberOfRows(notes: seq<Note>, section: int): nat
  {
    |SectionNotes(notes, section)|
  }

  /** The pinned section has a row per pinned note, any other section a row per unpinned note. */
  lemma RowsCountSectionNotes(notes: seq<Note>, section: int)
    ensures InPinnedSection(notes, section) ==> NumberOfRows(notes, section) == |Filter(notes, IsPinned)|
    ensures !InPinnedSection(notes, section) ==> NumberOfRows(notes, section) == |Filter(notes, IsUnpinned)|
  {
    var flagged := Filter(notes, if InPinnedSection(notes, section) then IsPinned else IsUnpinned);
    assert |multiset(SortByDateDescending(flagged))| == |multiset(flagged)|;
  }

  /** The rows of all sections together list every note exactly once. */
  lemma RowsCoverAllNotes(notes: seq<Note>)
    ensures
      var total :=
        if NumberOfSections(notes) == 2 then NumberOfRows(notes, 0) + NumberOfRows(notes, 1)
        else NumberOfRows(notes, 0);
      total == |notes|
  {
    PartitionSizes(notes);
    if NumberOfSections(notes) == 1 {
      assert |PinnedNotes(notes)| == 0;
    }
  }

  /**
   * The note at a table position, as chosen for display, selection, pinning
   * and deletion. Every row below the section's row count is a valid position.
   */
  function NoteAt(notes: seq<Note>, section: int, row: nat): (n: Note)
    requires row < NumberOfRows(notes, section)
    ensures n == SectionNotes(notes, section)[row]
    ensures n in notes
    ensures n.pinned <==> InPinnedSection(notes, section)
  {
    PartitionContents(notes);
    var ns := SectionNotes(notes, section);
    assert multiset(ns)[ns[row]] > 0;
    ns[row]
  }

  /** Down a section the rows go from the newest note to the oldest. */
  lemma RowsAreNewestFirst(notes: seq<Note>, section: int, r1: nat, r2: nat)
    requires r1 < r2 < NumberOfRows(notes, section)
    ensures NoteAt(notes, section, r1).date >= NoteAt(notes, section, r2).date
  {
  }

  /**
   * Every note of the list whose pinned flag matches the section is shown on
   * some row of it, and on as many rows as the list holds it.
   */
  lemma EverySectionNoteHasRow(notes: seq<Note>, section: int, n: Note)
    requires n in notes
    requires n.pinned <==> InPinnedSection(notes, section)
    ensures exists row :: 0 <= row < NumberOfRows(notes, section) && NoteAt(notes, section, row) == n
    ensures multiset(SectionNotes(notes, section))[n] == multiset(notes)[n]
  {
    var ns := SectionNotes(notes, section);
    PartitionCount(notes, n);
    assert multiset(notes)[n] > 0;
    assert multiset(ns)[n] == multiset(notes)[n] by {
      if InPinnedSection(notes, section) {
        assert ns == PinnedNotes(notes);
      } else {
        assert ns == NonPinnedNotes(notes);
      }
    }
    assert n in ns;
    var row :| 0 <= row < |ns| && ns[row] == n;
    assert NoteAt(notes, section, row) == n;
  }

  /**
   * What the cell at a position shows: the labels for the note there and the
   * first image of its text (none standing for the blank placeholder image).
   * The cell traps on notes whose title is absent and whose body is not empty.
   */
  function CellForRow(notes: seq<Note>, section: int, row: nat): (Labels, Option<Image>)
    requires row < NumberOfRows(notes, section)
    requires ConfigureIsDefined(NoteAt(notes, section, row).title, NoteAt(notes, section, row).text)
  {
    var n := NoteAt(notes, section, row);
    (Configure(n.title, n.text), GetImage(n.text.GetOr(Empty)))
  }

  /** The header of a section. */
  function TitleForHeader(notes: seq<Note>, section: int): (h: Option<string>)
  {
    if NumberOfSections(notes) == 1 || (|NonPinnedNotes(notes)| != 0 && section == 1) then Some(NotesHeader)
    else if section == 0 then Some(PinnedHeader)
    else None
  }

  /**
   * For every section the table has: the pinned section is headed
   * "Закреплено", and a header is missing only on an empty unpinned section
   * that follows a pinned one; every other header is "Заметки".
   */
  lemma HeaderNamesSection(notes: seq<Note>, section: int)
    requires 0 <= section < NumberOfSections(notes)
    ensures TitleForHeader(notes, section) == Some(PinnedHeader) <==> InPinnedSection(notes, section)
    ensures TitleForHeader(notes, section).None? <==>
      section == 1 && NumberOfSections(notes) == 2 && NumberOfRows(notes, 1) == 0
    ensures TitleForHeader(notes, section) == Some(NotesHeader) <==>
      NumberOfSections(notes) == 1 || (!InPinnedSection(notes, section) && NumberOfRows(notes, section) != 0)
  {
  }

  /** The image of a row's leading swipe action. */
  function PinActionIcon(notes: seq<Note>, section: int): string
  {
    if InPinnedSection(notes, section) then UnpinIcon else PinIcon
  }

  /** The swipe action offers to unpin exactly the pinned notes. */
  lemma PinIconMatchesNote(notes: seq<Note>, section: int, row: nat)
    requires row < NumberOfRows(notes, section)
    ensures PinActionIcon(notes, section) == UnpinIcon <==> NoteAt(notes, section, row).pinned
  {
  }

  /** Tapping a row opens the editor on the note shown there. */
  function DidSelectRow(p: Presenter, section: int, row: nat): (r: Reaction)
    requires row < NumberOfRows(p.notes, section)
    ensures r.presenter == p
    ensures |r.signals| == 1 && r.signals[0].OpenEditor?
    ensures r.signals[0].note == NoteAt(p.notes, section, row)
    ensures r.signals[0].note in p.notes
    ensures r.signals[0].note.pinned <==> InPinnedSection(p.notes, section)
  {
    UserDidSelect(p, NoteAt(p.notes, section, row))
  }

  /** The pin swipe on a row forwards the note shown there to the presenter. */
  function HandlePin(p: Presenter, section: int, row: nat, save: SaveOutcome): (r: Reaction)
    requires row < NumberOfRows(p.notes, section)
  {
    UserDidPin(p, NoteAt(p.notes, section, row), save)
  }

  /** The delete swipe on a row forwards the note shown there to the presenter. */
  function HandleDelete(p: Presenter, section: int, row: nat, save: SaveOutcome): (r: Reaction)
    requires row < NumberOfRows(p.notes, section)
  {
    UserDidDelete(p, NoteAt(p.notes, section, row), save)
  }

  /**
   * With distinct ids in the presenter's list, the pin swipe moves the note
   * shown at the row into the other partition, flag flipped and otherwise
   * unchanged, whatever the store did.
   */
  lemma PinSwipeMovesNote(p: Presenter, section: int, row: nat, save: SaveOutcome)
    requires row < NumberOfRows(p.notes, section)
    requires DistinctKeys(p.notes, NoteId)
    ensures
      var n := NoteAt(p.notes, section, row);
      var moved := n.(pinned := !n.pinned);
      var after := HandlePin(p, section, row, save).presenter.notes;
      && moved in (if n.pinned then NonPinnedNotes(after) else PinnedNotes(after))
      && n !in after
  {
    var n := NoteAt(p.notes, section, row);
    var after := HandlePin(p, section, row, save).presenter.notes;
    var j :| 0 <= j < |p.notes| && p.notes[j] == n;
    assert HasKey(p.notes, NoteId, n.id) by {
      assert NoteId(p.notes[j]) == n.id;
    }
    var k := FirstIndex(p.notes, NoteId, n.id).value;
    assert k == j;
    var moved := n.(pinned := !n.pinned);
    PartitionCount(after, moved);
    assert after[k] == moved;
    assert multiset(after)[moved] > 0;
    forall m | 0 <= m < |after| ensures after[m] != n {
      if m != k {
        assert after[m] == p.notes[m];
        assert NoteId(p.notes[m]) != NoteId(p.notes[k]);
      }
    }
  }

  /**
   * With distinct ids, a delete swipe the store accepts leaves the note shown
   * at the row in neither partition and every other note where it was.
   */
  lemma DeleteSwipeRemovesNote(p: Presenter, section: int, row: nat, save: SaveOutcome)
    requires row < NumberOfRows(p.notes, section)
    requires DistinctKeys(p.notes, NoteId)
    requires p.storage.hasContext && save.Saved?
    ensures
      var n := NoteAt(p.notes, section, row);
      var after := HandleDelete(p, section, row, save).presenter.notes;
      && n !in PinnedNotes(after) && n !in NonPinnedNotes(after)
      && |after| == |p.notes| - 1
      && exists j :: 0 <= j < |p.notes| && p.notes[j] == n && after == p.notes[..j] + p.notes[j + 1..]
  {
    var n := NoteAt(p.notes, section, row);
    var after := HandleDelete(p, section, row, save).presenter.notes;
    var j :| 0 <= j < |p.notes| && p.notes[j] == n;
    RemoveDistinctKey(p.notes, NoteId, n.id, j);
    assert after == p.notes[..j] + p.notes[j + 1..];
    PartitionCount(after, n);
    assert multiset(after)[n] == 0;
  }
}
