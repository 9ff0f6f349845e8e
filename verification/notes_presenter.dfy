/**
 * The list presenter: keeps its own copy of the notes, forwards user intents
 * to the store, and tells the list screen what to do. The screen is reduced
 * to the sequence of signals the presenter sends it.
 */
module NotesPresenter {
  import opened Optionals
  import opened StyledText
  import opened NoteModel
  import opened Seqs
  import opened NotesStorage

  /** The presenter's state: its list, its (never shown) unpinned list, and the store it owns. */
  datatype Presenter = Presenter(notes: seq<Note>, pinnedNotes: seq<Note>, storage: Store)

  /** What the presenter asks of the list screen. */
  datatype Signal =
    | Reload(shown: seq<Note>)
    | OpenEditor(note: Note)
    | ShowAlert(error: StorageError)

  /** The presenter after handling an event, and the signals it sent, in order. */
  datatype Reaction = Reaction(presenter: Presenter, signals: seq<Signal>)

  /** The error a store call reports when it fails after finding the context. */
  function FailureOf(hasContext: bool): StorageError
  {
    if hasContext then CoreDataFailure else ContextIsMissing
  }

  /**
   * Stores the unpinned notes of a list in the field named `pinnedNotes`
   * (the name says the opposite of the content); nothing else changes.
   */
  function FilterNotes(p: Presenter, list: seq<Note>): (q: Presenter)
    ensures q.notes == p.notes && q.storage == p.storage
    ensures forall i :: 0 <= i < |q.pinnedNotes| ==> !q.pinnedNotes[i].pinned
    ensures forall n :: multiset(q.pinnedNotes)[n] == if n.pinned then 0 else multiset(list)[n]
  {
    FilterCount(list, IsUnpinned);
    p.(pinnedNotes := Filter(list, IsUnpinned))
  }

  /** The stored unpinned notes keep the order they had in the list. */
  lemma FilterNotesKeepsOrder(p: Presenter, a: seq<Note>, b: seq<Note>)
    ensures FilterNotes(p, a + b).pinnedNotes == FilterNotes(p, a).pinnedNotes + FilterNotes(p, b).pinnedNotes
  {
    FilterAppend(a, b, IsUnpinned);
  }

  /** Loads the list from the store; a failed fetch leaves the list empty. */
  function ViewDidLoad(p: Presenter, fetched: FetchOutcome): (r: Reaction)
    ensures r.presenter.storage == FetchNotes(p.storage, fetched).store
    ensures r.presenter.pinnedNotes == p.pinnedNotes
    ensures p.storage.hasContext && fetched.Fetched? ==>
      && |r.presenter.notes| == |fetched.records|
      && forall i :: 0 <= i < |fetched.records| ==> r.presenter.notes[i] == FromRecord(fetched.records[i])
    ensures !(p.storage.hasContext && fetched.Fetched?) ==> r.presenter.notes == []
    ensures r.signals == [Reload(r.presenter.notes)]
  {
    var st := FetchNotes(p.storage, fetched);
    var notes := if st.result.Ok? then st.result.value else [];
    Reaction(p.(notes := notes, storage := st.store), [Reload(notes)])
  }

  /**
   * After a load whose fetch returned rows, the presenter's list is the
   * store's index read note by note: one note per row, in the same order.
   */
  lemma ViewDidLoadMirrorsStore(p: Presenter, fetched: FetchOutcome)
    requires p.storage.hasContext && fetched.Fetched?
    ensures
      var q := ViewDidLoad(p, fetched).presenter;
      && |q.notes| == |q.storage.index|
      && forall i :: 0 <= i < |q.notes| ==> ToRecord(q.notes[i]) == q.storage.index[i]
  {
    FetchMirrorsIndex(p.storage, fetched);
  }

  /**
   * Creates a blank note and opens the editor on it; on failure shows an
   * alert instead. The presenter's list is not touched either way.
   */
  function UserDidRequestCreate(p: Presenter, freshId: string, now: int, save: SaveOutcome): (r: Reaction)
    ensures r.presenter.notes == p.notes && r.presenter.pinnedNotes == p.pinnedNotes
    ensures r.presenter.storage == CreateBlankNote(p.storage, freshId, now, save).store
    ensures |r.signals| == 1
    ensures r.signals[0].OpenEditor? <==> p.storage.hasContext && save.Saved?
    ensures r.signals[0].OpenEditor? ==>
      var n := r.signals[0].note;
      n.id == freshId && n.title == Some("") && n.text == Some(Empty) && !n.pinned && n.date == now
    ensures r.signals[0].OpenEditor? ==>
      && |r.presenter.storage.index| == |p.storage.index| + 1
      && r.signals[0].note == FromRecord(r.presenter.storage.index[|p.storage.index|])
    ensures !r.signals[0].OpenEditor? ==> r.signals == [ShowAlert(FailureOf(p.storage.hasContext))]
  {
    var st := CreateBlankNote(p.storage, freshId, now, save);
    var q := p.(storage := st.store);
    match st.result
    case Ok(note) => Reaction(q, [OpenEditor(note)])
    case Err(e) => Reaction(q, [ShowAlert(e)])
  }

  /** Selecting a note only opens the editor on it. */
  function UserDidSelect(p: Presenter, note: Note): (r: Reaction)
    ensures r.presenter == p
    ensures r.signals == [OpenEditor(note)]
  {
    Reaction(p, [OpenEditor(note)])
  }

  /**
   * Hands an edited note to the store and asks for a reload of the list as it
   * stands: the presenter's own list is never changed by an update.
   */
  function UserDidUpdate(p: Presenter, note: Note, save: SaveOutcome): (r: Reaction)
    ensures r.presenter.notes == p.notes && r.presenter.pinnedNotes == p.pinnedNotes
    ensures r.presenter.storage == Update(p.storage, note, save).store
    ensures r.signals ==
      if p.storage.hasContext && save.Saved? then [Reload(p.notes)]
      else [ShowAlert(FailureOf(p.storage.hasContext))]
  {
    var st := Update(p.storage, note, save);
    var q := p.(storage := st.store);
    match st.result
    case Ok(_) => Reaction(q, [Reload(p.notes)])
    case Err(e) => Reaction(q, [ShowAlert(e)])
  }

  /**
   * Deletes a note through the store; when the store reports success, every
   * note with that id leaves the presenter's list, the rest keeping their
   * order. The store reports success also when the id was not in its index.
   */
  function UserDidDelete(p: Presenter, note: Note, save: SaveOutcome): (r: Reaction)
    ensures r.presenter.storage == Delete(p.storage, note, save).store
    ensures r.presenter.pinnedNotes == p.pinnedNotes
    ensures
      var succeeded := p.storage.hasContext && (save.Saved? || !HasKey(p.storage.index, RecordId, note.id));
      && (succeeded ==>
            && r.presenter.notes == RemoveAll(p.notes, NoteId, note.id)
            && r.signals == [Reload(r.presenter.notes)])
      && (!succeeded ==>
            && r.presenter.notes == p.notes
            && r.signals == [ShowAlert(FailureOf(p.storage.hasContext))])
  {
    var st := Delete(p.storage, note, save);
    match st.result
    case Ok(_) =>
      var notes := RemoveAll(p.notes, NoteId, note.id);
      Reaction(p.(notes := notes, storage := st.store), [Reload(notes)])
    case Err(e) => Reaction(p.(storage := st.store), [ShowAlert(e)])
  }

  /**
   * Flips the pinned flag of the first note with the given id in the local
   * list and sends that note to the store's update. The local flip stays even
   * when the store fails, and the list screen is asked to reload in every
   * case. An id absent from the list changes nothing and calls no store.
   */
  function UserDidPin(p: Presenter, note: Note, save: SaveOutcome): (r: Reaction)
    ensures |r.presenter.notes| == |p.notes|
    ensures r.presenter.pinnedNotes == p.pinnedNotes
    ensures |r.signals| >= 1 && r.signals[|r.signals| - 1] == Reload(r.presenter.notes)
    ensures !HasKey(p.notes, NoteId, note.id) ==> r == Reaction(p, [Reload(p.notes)])
    ensures HasKey(p.notes, NoteId, note.id) ==>
      var k := FirstIndex(p.notes, NoteId, note.id).value;
      var flipped := r.presenter.notes[k];
      && flipped.pinned == !p.notes[k].pinned
      && flipped.(pinned := p.notes[k].pinned) == p.notes[k]
      && (forall i :: 0 <= i < |p.notes| && i != k ==> r.presenter.notes[i] == p.notes[i])
      && r.presenter.storage == Update(p.storage, flipped, save).store
      && r.signals ==
           (if p.storage.hasContext && save.Saved? then [] else [ShowAlert(FailureOf(p.storage.hasContext))])
           + [Reload(r.presenter.notes)]
  {
    match FirstIndex(p.notes, NoteId, note.id)
    case None => Reaction(p, [Reload(p.notes)])
    case Some(k) =>
      var flipped := p.notes[k].(pinned := !p.notes[k].pinned);
      var notes := p.notes[k := flipped];
      var st := Update(p.storage, flipped, save);
      var alerts := if st.result.Err? then [ShowAlert(st.result.error)] else [];
      Reaction(p.(notes := notes, storage := st.store), alerts + [Reload(notes)])
  }

  /** Pinning the same id twice gives back the original list, whatever the store did. */
  lemma PinTwiceRestores(p: Presenter, note: Note, save1: SaveOutcome, save2: SaveOutcome)
    ensures UserDidPin(UserDidPin(p, note, save1).presenter, note, save2).presenter.notes == p.notes
  {
    var once := UserDidPin(p, note, save1).presenter;
    if HasKey(p.notes, NoteId, note.id) {
      var k := FirstIndex(p.notes, NoteId, note.id).value;
      assert FirstIndex(once.notes, NoteId, note.id) == Some(k) by {
        forall j | 0 <= j < k ensures once.notes[j].id != note.id {
          assert once.notes[j] == p.notes[j];
        }
      }
    } else {
      assert once == p;
    }
  }

  /**
   * The first image among the text's attachments, in document order, or
   * none when no attachment yields an image.
   */
  function GetImage(t: Text): (r: Option<Image>)
    ensures r.None? <==> forall i :: 0 <= i < |t| ==> ImageOf(t[i]).None?
    ensures r.Some? ==>
      exists i :: 0 <= i < |t| && ImageOf(t[i]) == r && forall j :: 0 <= j < i ==> ImageOf(t[j]).None?
    decreases |t|
  {
    if |t| == 0 then None
    else if ImageOf(t[0]).Some? then ImageOf(t[0])
    else
      var rest := GetImage(t[1..]);
      assert forall i :: 1 <= i < |t| ==> t[i] == t[1..][i - 1];
      if rest.Some? then
        var i :| 0 <= i < |t[1..]| && ImageOf(t[1..][i]) == rest && forall j :: 0 <= j < i ==> ImageOf(t[1..][j]).None?;
        assert ImageOf(t[i + 1]) == rest;
        rest
      else rest
  }
}
