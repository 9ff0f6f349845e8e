/**
 * The editor presenter: holds one note, hands the editing screen a view
 * model, and on close writes the screen's title, styled text and timestamp
 * into its note and passes the result to the completion it was given.
 * The date shown on screen is a formatting of the note's timestamp; the
 * formatting itself is not modelled, so the view model carries the timestamp.
 */
module NoteEditing {
  import opened Optionals
  import opened StyledText
  import opened NoteModel

  /** The editor's state: its note, and whether a completion was set. */
  datatype Editor = Editor(note: Note, hasOnClose: bool)

  /** What the editing screen is given to display. */
  datatype ViewModel = ViewModel(title: string, text: Text, date: int)

  /** What the editor asks of its screen, and the completion calls it makes. */
  datatype EditorSignal =
    | Configure(model: ViewModel)
    | CloseScreen
    | Completed(updated: Note)

  datatype EditorReaction = EditorReaction(editor: Editor, signals: seq<EditorSignal>)

  /** The view model for the held note: an absent title shows as "", absent text as empty text. */
  function ViewDidLoad(e: Editor): (r: EditorReaction)
    ensures r.editor == e
    ensures |r.signals| == 1 && r.signals[0].Configure?
    ensures var m := r.signals[0].model;
      && (e.note.title.Some? ==> m.title == e.note.title.value)
      && (e.note.title.None? ==> m.title == "")
      && (e.note.text.Some? ==> m.text == e.note.text.value)
      && (e.note.text.None? ==> m.text == Empty)
      && m.date == e.note.date
  {
    var model := ViewModel(e.note.title.GetOr(""), e.note.text.GetOr(Empty), e.note.date);
    EditorReaction(e, [Configure(model)])
  }

  /** The screen puts the cursor in the title field when the shown title is empty, else in the body. */
  predicate FocusesTitle(m: ViewModel)
  {
    m.title == ""
  }

  /** The title field gets the focus exactly for notes whose title is absent or empty. */
  lemma FocusFollowsTitle(e: Editor)
    ensures FocusesTitle(ViewDidLoad(e).signals[0].model) <==> e.note.title.None? || e.note.title == Some("")
  {
  }

  /** The back button only asks the screen to close; the note stays as it is. */
  function UserDidTapBackButton(e: Editor): (r: EditorReaction)
    ensures r.editor == e
    ensures r.signals == [CloseScreen]
  {
    EditorReaction(e, [CloseScreen])
  }

  /**
   * Closing overwrites the note's title, text and date with the screen's
   * values, keeps its id and pinned flag, and calls the completion (when one
   * is set) once, with the updated note.
   */
  function UserWillCloseNoteEditingScreen(e: Editor, title: string, text: Text, date: int): (r: EditorReaction)
    ensures r.editor.hasOnClose == e.hasOnClose
    ensures r.editor.note.title == Some(title) && r.editor.note.text == Some(text) && r.editor.note.date == date
    ensures r.editor.note.id == e.note.id && r.editor.note.pinned == e.note.pinned
    ensures r.signals == if e.hasOnClose then [Completed(r.editor.note)] else []
  {
    var updated := e.note.(title := Some(title), text := Some(text), date := date);
    EditorReaction(e.(note := updated), if e.hasOnClose then [Completed(updated)] else [])
  }

  /**
   * Closing again replaces everything the earlier close wrote: after several
   * closes the note reflects only the last one, and repeating a close with
   * the same values changes nothing.
   */
  lemma CloseKeepsOnlyLastValues(e: Editor, t1: string, x1: Text, d1: int, t2: string, x2: Text, d2: int)
    ensures
      var first := UserWillCloseNoteEditingScreen(e, t1, x1, d1).editor;
      UserWillCloseNoteEditingScreen(first, t2, x2, d2) == UserWillCloseNoteEditingScreen(e, t2, x2, d2)
    ensures
      var first := UserWillCloseNoteEditingScreen(e, t1, x1, d1).editor;
      UserWillCloseNoteEditingScreen(first, t1, x1, d1).editor == first
  {
  }
}
