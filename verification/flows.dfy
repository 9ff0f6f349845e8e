/**
 * End-to-end behaviour across the components: the list presenter creates a
 * note, the editor is opened on it and closed, and its completion hands the
 * edited note back to the list presenter's update, as the screens wire it.
 */
module Flows {
  import opened Optionals
  import opened StyledText
  import opened NoteModel
  import opened Seqs
  import opened NotesStorage
  import opened NotesPresenter
  import opened NoteEditing
  import opened NoteCell

  /**
   * Creating a note, editing it and closing the editor leaves the store's
   * index with exactly one new row: the fresh id, the edited title, text and
   * date, still unpinned. The presenter's own list is unchanged.
   */
  lemma CreateEditCloseStoresEdit(p: Presenter, freshId: string, now: int, title: string, text: Text, later: int)
    requires p.storage.hasContext
    requires !HasKey(p.storage.index, RecordId, freshId)
    ensures
      var created := UserDidRequestCreate(p, freshId, now, Saved);
      var closed := UserWillCloseNoteEditingScreen(Editor(created.signals[0].note, true), title, text, later);
      var updated := UserDidUpdate(created.presenter, closed.signals[0].updated, Saved);
      && updated.presenter.storage.index == p.storage.index + [Record(freshId, Some(text), later, false, Some(title))]
      && updated.presenter.notes == p.notes
      && updated.signals == [Reload(p.notes)]
  {
    var before := p.storage.index;
    var created := UserDidRequestCreate(p, freshId, now, Saved);
    var blank := created.signals[0].note;
    var edited := UserWillCloseNoteEditingScreen(Editor(blank, true), title, text, later).signals[0].updated;
    var mid := created.presenter.storage;
    assert mid.index[..|before|] == before;
    assert FirstIndex(mid.index, RecordId, freshId) == Some(|before|) by {
      forall j | 0 <= j < |before| ensures RecordId(mid.index[j]) != freshId {
        assert mid.index[j] == before[j];
      }
    }
    var after := Update(mid, edited, Saved).store.index;
    assert after[|before|] == Record(freshId, Some(text), later, false, Some(title));
    assert after == before + [Record(freshId, Some(text), later, false, Some(title))];
  }

  /** Deleting a note just created gives back the index the store had before. */
  lemma CreateThenDeleteRestores(s: Store, freshId: string, now: int, save: SaveOutcome)
    requires s.hasContext
    requires !HasKey(s.index, RecordId, freshId)
    ensures
      var created := CreateBlankNote(s, freshId, now, Saved);
      Delete(created.store, created.result.value, save).store == s
  {
    var created := CreateBlankNote(s, freshId, now, Saved);
    var blank := created.store.index[|s.index|];
    assert created.store.index == s.index + [blank];
    RemoveAllAppend(s.index, [blank], RecordId, freshId);
    RemoveAbsentKey(s.index, RecordId, freshId);
    assert RemoveAll([blank], RecordId, freshId) == [];
  }

  /**
   * The notes the app makes itself carry a title: the blank note the editor
   * opens on, and the note the editor hands back on close. So the cell rule
   * never reaches its force-unwrap on them.
   */
  lemma MadeNotesCanBeShown(p: Presenter, freshId: string, now: int, save: SaveOutcome,
                            e: Editor, title: string, text: Text, date: int)
    ensures
      var editorFor := UserDidRequestCreate(p, freshId, now, save).signals[0];
      editorFor.OpenEditor? ==> ConfigureIsDefined(editorFor.note.title, editorFor.note.text)
    ensures
      var closed := UserWillCloseNoteEditingScreen(e, title, text, date).signals;
      forall i :: 0 <= i < |closed| ==> ConfigureIsDefined(closed[i].updated.title, closed[i].updated.text)
  {
  }

  /** Every row of the index has a title. */
  ghost predicate AllTitled(index: seq<Record>)
  {
    forall i :: 0 <= i < |index| ==> index[i].title.Some?
  }

  /** Every note handed to the store's update along a run carries a title. */
  ghost predicate UpdatesTitled(cs: seq<Command>)
  {
    forall i :: 0 <= i < |cs| ==> cs[i].UpdateNote? ==> cs[i].note.title.Some?
  }

  /** One store call keeps every row titled, given that an update brings a titled note. */
  lemma ApplyKeepsTitles(s: Store, c: Command)
    requires AllTitled(s.index)
    requires c.UpdateNote? ==> c.note.title.Some?
    ensures AllTitled(Apply(s, c).index)
  {
    var after := Apply(s, c).index;
    match c
    case CreateBlank(id, now, save) =>
      if s.hasContext && save.Saved? {
        forall i | 0 <= i < |after| ensures after[i].title.Some? {
          if i < |s.index| {
            assert after[i] == after[..|s.index|][i];
          }
        }
      }
    case UpdateNote(n, save) =>
    case PinNote(n, save) =>
    case DeleteNote(n, save) =>
      if s.hasContext && HasKey(s.index, RecordId, n.id) {
        forall i | 0 <= i < |after| ensures after[i].title.Some? {
          assert after[i] in multiset(after);
          assert after[i] in multiset(s.index);
          var j :| 0 <= j < |s.index| && s.index[j] == after[i];
        }
      }
  }

  /**
   * Starting from titled rows, any run of creates, pins, deletes and updates
   * of titled notes leaves every row of the index titled, so the cell rule is
   * defined on every row of the index.
   */
  lemma {:induction false} RunKeepsRowsShowable(s: Store, cs: seq<Command>)
    requires AllTitled(s.index)
    requires UpdatesTitled(cs)
    ensures AllTitled(RunAll(s, cs).index)
    ensures forall i :: 0 <= i < |RunAll(s, cs).index| ==>
      ConfigureIsDefined(RunAll(s, cs).index[i].title, RunAll(s, cs).index[i].text)
    decreases |cs|
  {
    if |cs| > 0 {
      ApplyKeepsTitles(s, cs[0]);
      assert UpdatesTitled(cs[1..]) by {
        forall i | 0 <= i < |cs[1..]| ensures cs[1..][i].UpdateNote? ==> cs[1..][i].note.title.Some? {
          assert cs[1..][i] == cs[i + 1];
        }
      }
      RunKeepsRowsShowable(Apply(s, cs[0]), cs[1..]);
    }
  }

  /**
   * A load whose fetch returns what the index holds after such a run gives the
   * list presenter only notes the cell rule can show. The fetch result is an
   * input of the model, so this assumes the context hands back the index rows.
   */
  lemma LoadAfterRunIsShowable(p: Presenter, cs: seq<Command>)
    requires p.storage.hasContext
    requires AllTitled(p.storage.index)
    requires UpdatesTitled(cs)
    ensures
      var q := NotesPresenter.ViewDidLoad(p, Fetched(RunAll(p.storage, cs).index)).presenter;
      forall i :: 0 <= i < |q.notes| ==> ConfigureIsDefined(q.notes[i].title, q.notes[i].text)
  {
    RunKeepsRowsShowable(p.storage, cs);
  }
}
