/**
 * The notes store: an in-memory index of persisted rows kept next to the
 * persistence context. Whether the context could be reached is a flag fixed
 * for the store's lifetime; what the context's fetch returns, whether a save
 * succeeds, the fresh identifier and the current time are supplied by the
 * caller, so that every ordering between index changes and the save is
 * visible in the results.
 */
module NotesStorage {
  import opened Optionals
  import opened StyledText
  import opened NoteModel
  import opened Seqs

  /** The missing-context error, or any error the persistence layer rethrows. */
  datatype StorageError = ContextIsMissing | CoreDataFailure

  datatype Result<T> = Ok(value: T) | Err(error: StorageError)

  /** What the context's save did. */
  datatype SaveOutcome = Saved | SaveFailed

  /** What the context's fetch did: threw, returned objects that are not all rows, or returned rows. */
  datatype FetchOutcome = FetchFailed | NotRecords | Fetched(records: seq<Record>)

  datatype Store = Store(hasContext: bool, index: seq<Record>)

  /** The store after an operation, and what the operation returned or threw. */
  datatype Step<T> = Step(store: Store, result: Result<T>)

  /** What the store reports after attempting a save. */
  function SaveResult(save: SaveOutcome): (r: Result<()>)
    ensures r.Ok? <==> save.Saved?
    ensures r.Err? ==> r.error == CoreDataFailure
  {
    if save.Saved? then Ok(()) else Err(CoreDataFailure)
  }

  /** The notes read from a sequence of rows, one per row. */
  function NotesOf(rs: seq<Record>): seq<Note>
  {
    seq(|rs|, i requires 0 <= i < |rs| => FromRecord(rs[i]))
  }

  /** A fresh row: empty title, empty styled text, unpinned, dated now. */
  function BlankRecord(id: string, now: int): Record
  {
    Record(id, Some(Empty), now, false, Some(""))
  }

  /** The row with the note's text, title, date and pinned flag, keeping the row's own id. */
  function Overwrite(r: Record, n: Note): Record
  {
    r.(text := n.text, title := n.title, date := n.date, pinned := n.pinned)
  }

  /**
   * Loads every row: the index becomes exactly the fetched rows (nothing of
   * the previous index is kept) and one note per row is returned in order.
   */
  function FetchNotes(s: Store, fetched: FetchOutcome): (st: Step<seq<Note>>)
    ensures st.store.hasContext == s.hasContext
    ensures !s.hasContext ==> st == Step(s, Err(ContextIsMissing))
    ensures s.hasContext && fetched.FetchFailed? ==> st == Step(s, Err(CoreDataFailure))
    ensures s.hasContext && fetched.NotRecords? ==> st == Step(s, Ok([]))
    ensures s.hasContext && fetched.Fetched? ==>
      && st.store.index == fetched.records
      && st.result.Ok?
      && |st.result.value| == |fetched.records|
      && forall i :: 0 <= i < |fetched.records| ==> st.result.value[i] == FromRecord(fetched.records[i])
  {
    if !s.hasContext then Step(s, Err(ContextIsMissing))
    else
      match fetched
      case FetchFailed => Step(s, Err(CoreDataFailure))
      case NotRecords => Step(s, Ok([]))
      case Fetched(records) => Step(Store(s.hasContext, records), Ok(NotesOf(records)))
  }

  /**
   * After a fetch that returned rows, the notes handed out and the new index
   * agree row for row: each note stores back as exactly the row it was read from.
   */
  lemma FetchMirrorsIndex(s: Store, fetched: FetchOutcome)
    requires s.hasContext && fetched.Fetched?
    ensures
      var st := FetchNotes(s, fetched);
      && st.result.Ok?
      && |st.result.value| == |st.store.index|
      && forall i :: 0 <= i < |st.store.index| ==> ToRecord(st.result.value[i]) == st.store.index[i]
  {
    var st := FetchNotes(s, fetched);
    forall i | 0 <= i < |st.store.index|
      ensures ToRecord(st.result.value[i]) == st.store.index[i]
    {
      FromRecordRoundTrip(st.store.index[i]);
    }
  }

  /**
   * Creates a blank note under a fresh id. The row joins the index only once
   * the save has succeeded; the note returned mirrors the row.
   */
  function CreateBlankNote(s: Store, freshId: string, now: int, save: SaveOutcome): (st: Step<Note>)
    ensures st.store.hasContext == s.hasContext
    ensures !s.hasContext ==> st == Step(s, Err(ContextIsMissing))
    ensures s.hasContext && save.SaveFailed? ==> st == Step(s, Err(CoreDataFailure))
    ensures s.hasContext && save.Saved? ==>
      && |st.store.index| == |s.index| + 1
      && st.store.index[..|s.index|] == s.index
      && var r := st.store.index[|s.index|];
      && r.id == freshId && r.title == Some("") && r.text == Some(Empty)
      && !r.pinned && r.date == now
      && st.result == Ok(FromRecord(r))
  {
    if !s.hasContext then Step(s, Err(ContextIsMissing))
    else
      var blank := BlankRecord(freshId, now);
      match save
      case SaveFailed => Step(s, Err(CoreDataFailure))
      case Saved =>
        assert (s.index + [blank])[..|s.index|] == s.index;
        Step(s.(index := s.index + [blank]), Ok(FromRecord(blank)))
  }

  /**
   * Writes a note's text, title, date and pinned flag into the first row with
   * its id, then saves. The row is changed before the save is attempted, so a
   * failed save leaves it changed; an id absent from the index changes nothing
   * but the save is still attempted.
   */
  function Update(s: Store, note: Note, save: SaveOutcome): (st: Step<()>)
    ensures st.store.hasContext == s.hasContext
    ensures !s.hasContext ==> st == Step(s, Err(ContextIsMissing))
    ensures s.hasContext ==> st.result == SaveResult(save)
    ensures |st.store.index| == |s.index|
    ensures forall i :: 0 <= i < |s.index| ==> st.store.index[i].id == s.index[i].id
    ensures !HasKey(s.index, RecordId, note.id) ==> st.store.index == s.index
    ensures s.hasContext && HasKey(s.index, RecordId, note.id) ==>
      var k := FirstIndex(s.index, RecordId, note.id).value;
      && FromRecord(st.store.index[k]) == note
      && forall i :: 0 <= i < |s.index| && i != k ==> st.store.index[i] == s.index[i]
  {
    if !s.hasContext then Step(s, Err(ContextIsMissing))
    else
      match FirstIndex(s.index, RecordId, note.id)
      case None => Step(s, SaveResult(save))
      case Some(k) =>
        Step(s.(index := s.index[k := Overwrite(s.index[k], note)]), SaveResult(save))
  }

  /**
   * Copies only the note's pinned flag into the first row with its id, then
   * saves; as with `Update`, the row is changed before the save.
   */
  function Pin(s: Store, note: Note, save: SaveOutcome): (st: Step<()>)
    ensures st.store.hasContext == s.hasContext
    ensures !s.hasContext ==> st == Step(s, Err(ContextIsMissing))
    ensures s.hasContext ==> st.result == SaveResult(save)
    ensures |st.store.index| == |s.index|
    ensures !HasKey(s.index, RecordId, note.id) ==> st.store.index == s.index
    ensures s.hasContext && HasKey(s.index, RecordId, note.id) ==>
      var k := FirstIndex(s.index, RecordId, note.id).value;
      && st.store.index[k].pinned == note.pinned
      && st.store.index[k].(pinned := s.index[k].pinned) == s.index[k]
      && forall i :: 0 <= i < |s.index| && i != k ==> st.store.index[i] == s.index[i]
  {
    if !s.hasContext then Step(s, Err(ContextIsMissing))
    else
      match FirstIndex(s.index, RecordId, note.id)
      case None => Step(s, SaveResult(save))
      case Some(k) =>
        Step(s.(index := s.index[k := s.index[k].(pinned := note.pinned)]), SaveResult(save))
  }

  /**
   * Deletes every row with the note's id. An id absent from the index returns
   * at once without saving; otherwise the rows leave the index before the
   * save is attempted, and stay out of it whether or not the save succeeds.
   */
  function Delete(s: Store, note: Note, save: SaveOutcome): (st: Step<()>)
    ensures st.store.hasContext == s.hasContext
    ensures !s.hasContext ==> st == Step(s, Err(ContextIsMissing))
    ensures s.hasContext && !HasKey(s.index, RecordId, note.id) ==> st == Step(s, Ok(()))
    ensures s.hasContext && HasKey(s.index, RecordId, note.id) ==>
      && st.store.index == RemoveAll(s.index, RecordId, note.id)
      && st.result == SaveResult(save)
    ensures s.hasContext ==> !HasKey(st.store.index, RecordId, note.id)
  {
    if !s.hasContext then Step(s, Err(ContextIsMissing))
    else
      match FirstIndex(s.index, RecordId, note.id)
      case None => Step(s, Ok(()))
      case Some(_) => Step(s.(index := RemoveAll(s.index, RecordId, note.id)), SaveResult(save))
  }

  /** Writing the same note twice leaves the same index as writing it once. */
  lemma UpdateIdempotent(s: Store, note: Note, save1: SaveOutcome, save2: SaveOutcome)
    ensures
      var once := Update(s, note, save1).store;
      Update(once, note, save2).store == once
  {
    var once := Update(s, note, save1).store;
    if s.hasContext && HasKey(s.index, RecordId, note.id) {
      var k := FirstIndex(s.index, RecordId, note.id).value;
      assert FirstIndex(once.index, RecordId, note.id) == Some(k) by {
        forall j | 0 <= j < k ensures once.index[j].id != note.id {
          assert once.index[j] == s.index[j];
        }
      }
      assert Overwrite(once.index[k], note) == once.index[k];
      assert once.index[k := once.index[k]] == once.index;
    }
  }

  /**
   * After a delete (with the context present) the id is gone for good: an
   * update, pin or delete of the same id changes nothing further.
   */
  lemma DeleteIsFinal(s: Store, note: Note, save: SaveOutcome, later: Note, save2: SaveOutcome)
    requires s.hasContext
    requires later.id == note.id
    ensures
      var gone := Delete(s, note, save).store;
      && Update(gone, later, save2).store == gone
      && Pin(gone, later, save2).store == gone
      && Delete(gone, later, save2) == Step(gone, Ok(()))
  {
  }

  /** One store call with its caller-supplied inputs. */
  datatype Command =
    | CreateBlank(freshId: string, now: int, createSave: SaveOutcome)
    | UpdateNote(note: Note, save: SaveOutcome)
    | PinNote(note: Note, save: SaveOutcome)
    | DeleteNote(note: Note, save: SaveOutcome)

  /** The store after one call, whatever the call returned. */
  function Apply(s: Store, c: Command): Store
  {
    match c
    case CreateBlank(id, now, save) => CreateBlankNote(s, id, now, save).store
    case UpdateNote(n, save) => Update(s, n, save).store
    case PinNote(n, save) => Pin(s, n, save).store
    case DeleteNote(n, save) => Delete(s, n, save).store
  }

  /** The store after a sequence of calls. */
  function RunAll(s: Store, cs: seq<Command>): Store
    decreases |cs|
  {
    if |cs| == 0 then s else RunAll(Apply(s, cs[0]), cs[1..])
  }

  /** Every creation along the run is handed an id that is not in the index at that moment. */
  ghost predicate FreshAlong(s: Store, cs: seq<Command>)
    decreases |cs|
  {
    |cs| > 0 ==>
      && (cs[0].CreateBlank? ==> !HasKey(s.index, RecordId, cs[0].freshId))
      && FreshAlong(Apply(s, cs[0]), cs[1..])
  }

  /** One call keeps the ids of the index pairwise distinct, given a fresh id for creation. */
  lemma ApplyKeepsIdsDistinct(s: Store, c: Command)
    requires DistinctKeys(s.index, RecordId)
    requires c.CreateBlank? ==> !HasKey(s.index, RecordId, c.freshId)
    ensures DistinctKeys(Apply(s, c).index, RecordId)
  {
    match c
    case CreateBlank(id, now, save) =>
      var after := Apply(s, c).index;
      if s.hasContext && save.Saved? {
        forall i, j | 0 <= i < j < |after| ensures after[i].id != after[j].id {
          assert after[i] == s.index[i];
          if j < |s.index| {
            assert after[j] == s.index[j];
          }
        }
      }
    case UpdateNote(n, save) =>
    case PinNote(n, save) =>
      var after := Apply(s, c).index;
      forall i, j | 0 <= i < j < |after| ensures after[i].id != after[j].id {
        assert after[i].id == s.index[i].id && after[j].id == s.index[j].id;
      }
    case DeleteNote(n, save) =>
      FilterKeepsKeysDistinct(s.index, KeyIsNot(RecordId, n.id), RecordId);
  }

  /** Ids stay pairwise distinct across any run of creates, updates, pins and deletes. */
  lemma {:induction false} RunKeepsIdsDistinct(s: Store, cs: seq<Command>)
    requires DistinctKeys(s.index, RecordId)
    requires FreshAlong(s, cs)
    ensures DistinctKeys(RunAll(s, cs).index, RecordId)
    decreases |cs|
  {
    if |cs| > 0 {
      ApplyKeepsIdsDistinct(s, cs[0]);
      RunKeepsIdsDistinct(Apply(s, cs[0]), cs[1..]);
    }
  }
}
