# Notes app core, modelled in Dafny

A model of the logic inside a small single-device notes app. The app has a list screen that shows
pinned and unpinned notes, and an editing screen for one note's title and styled text.
The model covers:

- **The notes store** (`NotesStorage`, `notes_storage.dfy`). It keeps an in-memory index of persisted
  note rows next to a persistence context, and offers fetch, create-blank, update, pin and delete.
  Each operation fails with one error when the context is missing. A fetch or save that fails in the
  persistence layer rethrows its own error, modelled as `CoreDataFailure`.
- **The list presenter** (`NotesPresenter`). It keeps its own copy of the notes, forwards user actions
  to the store, and sends the list screen reload, open-editor and show-alert requests. It also holds the
  first-image query over styled text.
- **The list screen's derived views** (`NotesList`). These are the pinned and unpinned partitions,
  newest first, and the section, row, header and swipe-icon rules that map a table position to a note.
- **The cell text rule** (`NoteCell`). It decides what goes into a cell's title and description labels.
- **The editor presenter** (`NoteEditing`). It builds the view model and defaults, handles the back
  button, and handles close, which overwrites title, text and date and calls the completion.
- **The note record** (`NoteModel`). `Record` is the persisted row; `Note` is the value copy of it.
- `Flows` holds lemmas that run several components together: create, edit, close, then update.

Inputs from outside the program are parameters. These are whether the context could be reached,
what the context's fetch returns, whether a save succeeds, the fresh id, and the current time.
Dates are integers, ids are strings, and styled text is a sequence of runs, each with an optional
attachment. Every operation is a pure function that returns the new state together with its result
or signals. The order in which the source changes the index and saves is therefore part of each result:

- `update`, `pin` and `delete` change the index before they save, so a failed save leaves the change in place.
- `createBlankNote` appends to the index only after a successful save.

Behaviour of the code that the model keeps, although a reader might expect otherwise:

- A failed save does not roll back the index.
- The presenter's update does not fetch again. It reloads the screen with the list it already had.
- A failed fetch on load leaves the list empty and asks for no alert.
- Pinning from the list goes through the store's `update`, not its `pin`.
- The local pin flip stays even when the store fails, and the screen is reloaded either way.
- The source's date sort does not promise stability, so only order and content are stated.

## Model

| member | source | states |
|---|---|---|
| `NoteModel.FromRecordRoundTrip` | testApplcation/testApplcation/Storage/Note.swift:17-23 | reading a row as a note copies id, text, title, date and pinned flag unchanged, absent values included, so the row can be rebuilt from the note |
| `NoteModel.FromRecordInjective` | testApplcation/testApplcation/Storage/Note.swift:17-23 | two rows read as the same note only if they are the same row |
| `Seqs.FirstIndex` | testApplcation/testApplcation/Storage/NotesStorage.swift:66 | the lookup finds the first position whose id matches, and finds nothing exactly when no element has that id |
| `Seqs.RemoveAll` | testApplcation/testApplcation/Storage/NotesStorage.swift:87 | removal by id keeps every element with another id, as often as it occurred, and none with that id |
| `Seqs.FilterCount` | testApplcation/testApplcation/NotesList/NotesViewController.swift:21 | filtering keeps each element the predicate accepts as often as it occurs, and no other element |
| `Seqs.FilterAppend` | testApplcation/testApplcation/NotesList/NotesPresenter.swift:47-49 | filtering distributes over concatenation, so the survivors keep their relative order |
| `Seqs.RemoveDistinctKey` | testApplcation/testApplcation/NotesList/NotesPresenter.swift:92 | with distinct ids, removal by id removes exactly the one matching element and leaves the elements before and after it in place |
| `Seqs.FilterKeepsKeysDistinct` | testApplcation/testApplcation/Storage/NotesStorage.swift:87 | removing elements never makes two ids collide |
| `NotesStorage.FetchNotes` | testApplcation/testApplcation/Storage/NotesStorage.swift:36-48 | a missing context fails and changes nothing; a fetch error propagates; a result that is not all rows gives an empty list and keeps the old index; otherwise the index becomes exactly the fetched rows, with no merge, and one note per row is returned in order |
| `NotesStorage.CreateBlankNote` | testApplcation/testApplcation/Storage/NotesStorage.swift:49-61 | after a successful save, exactly one row is appended: the fresh id, title "", the empty styled text, unpinned, dated now; the returned note mirrors it; a failed save or missing context appends nothing |
| `NotesStorage.Update` | testApplcation/testApplcation/Storage/NotesStorage.swift:63-73 | the first row with the note's id reads back as exactly the note; every other row and every id stay as they were; an absent id changes nothing but the save is still attempted; the result is the save's outcome, and the change stays when the save fails |
| `NotesStorage.Pin` | testApplcation/testApplcation/Storage/NotesStorage.swift:74-82 | only the pinned flag of the first matching row changes, to the note's flag; text, title, date and the other rows stay the same; an absent id changes nothing |
| `NotesStorage.Delete` | testApplcation/testApplcation/Storage/NotesStorage.swift:84-91 | an absent id returns success with no change and no save; otherwise every row with that id leaves the index before the save, the rest keep their order, and no row with that id remains |
| `NotesStorage.FetchMirrorsIndex` | testApplcation/testApplcation/Storage/NotesStorage.swift:36-48 | after a fetch that returned rows, the notes returned and the new index agree row for row: each note stores back as exactly its row |
| `NotesStorage.UpdateIdempotent` | testApplcation/testApplcation/Storage/NotesStorage.swift:63-73 | updating with the same note twice leaves the store as updating once did |
| `NotesStorage.DeleteIsFinal` | testApplcation/testApplcation/Storage/NotesStorage.swift:84-91 | after a delete, a later update, pin or delete of the same id changes nothing, and the delete reports success |
| `NotesStorage.ApplyKeepsIdsDistinct` | testApplcation/testApplcation/Storage/NotesStorage.swift:49-91 | any single create (given an id not in the index), update, pin or delete keeps the index's ids pairwise distinct |
| `NotesStorage.RunKeepsIdsDistinct` | testApplcation/testApplcation/Storage/NotesStorage.swift:49-91 | any sequence of creates, updates, pins and deletes keeps ids pairwise distinct, when each create is given an id not in the index at that moment |
| `NotesPresenter.FilterNotes` | testApplcation/testApplcation/NotesList/NotesPresenter.swift:46-52 | the field named `pinnedNotes` receives exactly the unpinned notes of the list; nothing else changes |
| `NotesPresenter.FilterNotesKeepsOrder` | testApplcation/testApplcation/NotesList/NotesPresenter.swift:46-52 | the stored notes keep the order they had in the input |
| `NotesPresenter.ViewDidLoad` | testApplcation/testApplcation/NotesList/NotesPresenter.swift:55-58 | the list becomes one note per fetched row in order, or empty when the fetch throws or returns no rows; the screen is told to reload with it |
| `NotesPresenter.ViewDidLoadMirrorsStore` | testApplcation/testApplcation/NotesList/NotesPresenter.swift:55-58 | after a load whose fetch returned rows, the list is the store's index read note by note, in order |
| `NotesPresenter.UserDidRequestCreate` | testApplcation/testApplcation/NotesList/NotesPresenter.swift:64-71 | exactly one signal; it opens the editor on the note read from the one row the store appended (fresh id, title "", empty styled text, unpinned, dated now) exactly when the context exists and the save succeeds, and otherwise it asks the screen to show an alert with the store's error; the list is untouched |
| `NotesPresenter.UserDidSelect` | testApplcation/testApplcation/NotesList/NotesPresenter.swift:73-75 | selecting only opens the editor on the note |
| `NotesPresenter.UserDidUpdate` | testApplcation/testApplcation/NotesList/NotesPresenter.swift:77-86 | the store is updated and the presenter's list never changes; success reloads the unchanged list; failure asks the screen, once, to show an alert |
| `NotesPresenter.UserDidDelete` | testApplcation/testApplcation/NotesList/NotesPresenter.swift:88-98 | when the store reports success (also the case for an id it does not hold), every note with that id leaves the list, the rest in order, and a reload follows; on failure the list is unchanged and the screen is asked to show an alert |
| `NotesPresenter.UserDidPin` | testApplcation/testApplcation/NotesList/NotesPresenter.swift:100-113 | only the first note with the id has its flag flipped, with its other fields and all other notes unchanged; that note goes to the store's update; the screen is asked to show an alert exactly when the store fails; a reload is always the last signal; an absent id changes nothing and calls no store |
| `NotesPresenter.PinTwiceRestores` | testApplcation/testApplcation/NotesList/NotesPresenter.swift:100-113 | pinning the same id twice gives back the original list, whatever the store did |
| `NotesPresenter.GetImage` | testApplcation/testApplcation/NotesList/NotesPresenter.swift:115-140 | the result is the image of the earliest attachment that yields one: its own image, otherwise the one it draws; the result is none exactly when no attachment yields an image |
| `NotesList.SortByDateDescending` | testApplcation/testApplcation/NotesList/NotesViewController.swift:22 | the sorted list is a permutation of its input and is non-increasing by date |
| `NotesList.PinnedNotes` | testApplcation/testApplcation/NotesList/NotesViewController.swift:21-23 | the pinned partition is ordered newest first |
| `NotesList.NonPinnedNotes` | testApplcation/testApplcation/NotesList/NotesViewController.swift:25-27 | the unpinned partition is ordered newest first |
| `NotesList.PartitionContents` | testApplcation/testApplcation/NotesList/NotesViewController.swift:21-27 | the pinned partition holds each pinned note as often as the presenter's list does and no unpinned one; the unpinned partition the other way round |
| `NotesList.PartitionIsPermutation` | testApplcation/testApplcation/NotesList/NotesViewController.swift:21-27 | together the two partitions are a permutation of the presenter's notes |
| `NotesList.PartitionSizes` | testApplcation/testApplcation/NotesList/NotesViewController.swift:21-27 | the two partitions together are as long as the presenter's list |
| `NotesList.PartitionsAreDisjoint` | testApplcation/testApplcation/NotesList/NotesViewController.swift:21-27 | no note is in both partitions |
| `NotesList.NumberOfSections` | testApplcation/testApplcation/NotesList/NotesViewController.swift:213-216 | the table has one or two sections |
| `NotesList.SectionsFollowPins` | testApplcation/testApplcation/NotesList/NotesViewController.swift:213-216 | there are two sections exactly when some note of the list is pinned |
| `NotesList.RowsCountSectionNotes` | testApplcation/testApplcation/NotesList/NotesViewController.swift:218-225 | section 0 of a two-section table counts the pinned notes; every other section counts the unpinned notes |
| `NotesList.RowsCoverAllNotes` | testApplcation/testApplcation/NotesList/NotesViewController.swift:213-225 | the row counts of all sections add up to the number of notes |
| `NotesList.NoteAt` | testApplcation/testApplcation/NotesList/NotesViewController.swift:234-243 | row `r` of the pinned section is the `r`-th pinned note newest first, and of any other section the `r`-th unpinned note; it is a note of the presenter's list, pinned exactly when the position is in the pinned section |
| `NotesList.RowsAreNewestFirst` | testApplcation/testApplcation/NotesList/NotesViewController.swift:234-243 | down a section the rows' notes go from newest to oldest |
| `NotesList.EverySectionNoteHasRow` | testApplcation/testApplcation/NotesList/NotesViewController.swift:234-243 | every note of the list whose flag matches the section is on some row of it, on as many rows as the list holds it |
| `NotesList.DidSelectRow` | testApplcation/testApplcation/NotesList/NotesViewController.swift:232-245 | tapping a row opens the editor on exactly the note at that row, a note of the list from the row's partition, and changes nothing |
| `NotesList.HeaderNamesSection` | testApplcation/testApplcation/NotesList/NotesViewController.swift:163-173 | for each existing section: the header is "Закреплено" exactly for the pinned section; it is missing exactly for an empty unpinned section after a pinned one; otherwise it is "Заметки" |
| `NotesList.PinIconMatchesNote` | testApplcation/testApplcation/NotesList/NotesViewController.swift:269-273 | the swipe shows "pin.slash.fill" exactly on rows whose note is pinned |
| `NotesList.PinSwipeMovesNote` | testApplcation/testApplcation/NotesList/NotesViewController.swift:88-94 | with distinct ids, the pin swipe moves the row's note, flag flipped and otherwise unchanged, into the other partition, and the unflipped note is gone from the list |
| `NotesList.DeleteSwipeRemovesNote` | testApplcation/testApplcation/NotesList/NotesViewController.swift:96-104 | with distinct ids and a successful save, the delete swipe removes the row's note from both partitions and shortens the list by one, every other note keeping its place |
| `NoteCell.Configure` | testApplcation/testApplcation/NotesList/NoteTableViewCell.swift:65-80 | an empty body wins: the title label gets the title and the description says "Нет описания"; otherwise an empty title yields its label to the body and the description is cleared; otherwise title and body go to their own labels |
| `NoteCell.ConfigureShowsContent` | testApplcation/testApplcation/NotesList/NoteTableViewCell.swift:69-79 | a non-empty title is shown as the title; a non-empty body is shown in one of the two labels; "Нет описания" appears for an empty body, and otherwise only when the body reads exactly that |
| `NoteEditing.ViewDidLoad` | testApplcation/testApplcation/NoteEditing/NoteEditingPresenter.swift:39-51 | the view model shows the note's title or "", its text or the empty styled text, and its timestamp; the note is unchanged |
| `NoteEditing.FocusFollowsTitle` | testApplcation/testApplcation/NoteEditing/NoteEditingController.swift:297-301 | the title field gets the focus exactly when the note's title is absent or empty |
| `NoteEditing.UserDidTapBackButton` | testApplcation/testApplcation/NoteEditing/NoteEditingPresenter.swift:53-55 | the back button only asks the screen to close; the note is unchanged |
| `NoteEditing.UserWillCloseNoteEditingScreen` | testApplcation/testApplcation/NoteEditing/NoteEditingPresenter.swift:57-62 | title, text and date become the given values; id and pinned flag are kept; the completion is called once with the updated note when one is set, and not at all otherwise |
| `NoteEditing.CloseKeepsOnlyLastValues` | testApplcation/testApplcation/NoteEditing/NoteEditingPresenter.swift:57-62 | after two closes the editor is as if only the last one happened; repeating a close with the same values changes nothing |
| `Flows.CreateEditCloseStoresEdit` | testApplcation/testApplcation/NotesList/NotesViewController.swift:130-139 | create, then close the editor on the new note, then the completion's update: the store ends with exactly one new row holding the fresh id, the edited title, text and date, still unpinned; the presenter's list is unchanged |
| `Flows.MadeNotesCanBeShown` | testApplcation/testApplcation/NotesList/NoteTableViewCell.swift:78 | the blank note the editor opens on and the note the editor hands back on close both have a title, so the cell rule's force-unwrap of the title never traps on them |
| `Flows.ApplyKeepsTitles` | testApplcation/testApplcation/Storage/NotesStorage.swift:49-91 | one store call keeps every row titled when an update brings a titled note |
| `Flows.RunKeepsRowsShowable` | testApplcation/testApplcation/NotesList/NoteTableViewCell.swift:78 | from titled rows, any run of creates, pins, deletes and updates of titled notes leaves every row titled, so the cell rule is defined on every row of the index |
| `Flows.LoadAfterRunIsShowable` | testApplcation/testApplcation/NotesList/NotesPresenter.swift:55-58 | when the context hands back the index rows after such a run, every note the load puts into the presenter's list can be shown by the cell rule |
| `Flows.CreateThenDeleteRestores` | testApplcation/testApplcation/Storage/NotesStorage.swift:49-91 | deleting a note just created gives back the store as it was before the create |

## Left out

- The persistence context itself is not modelled. This covers its lookup through the application
  delegate, the fetch request, the context's own object graph, and the insert and delete it records.
  The store keeps only a flag for whether the context was reached. A fetch's result and a save's
  outcome are inputs. So what a fetch returns after a mutation is not stated: that depends on the context.
- A unique identifier and the current time are inputs: a fresh id and a timestamp.
- Date formatting (the editor's long pattern and the cell's short pattern) is not modelled. The
  view model carries the raw timestamp instead of the formatted string. The cell's date label is not modelled.
- Styled text is reduced to runs with an attachment value. Fonts, colours and alignment are not
  modelled. The enumeration merging adjacent runs with equal values is not modelled, because it
  cannot change which image comes first. A run with no characters is representable although an
  attachment occupies a character in the source; the contracts about empty text state the empty styled text itself.
- The screens' weak references are taken to be present, so every signal reaches its screen.
- `ShowAlert` is the presenter's request to its screen. The list screen answers it only by logging
  "Error" (NotesViewController.swift:141-143), so no alert appears and the error is dropped; that
  logging is output and is not modelled.
- Table mechanics are not modelled: reload, swipe configuration objects, header font and colour,
  and resizing the accessory image. The table's cached section count is taken to equal the data source's answer.
- The editing screen's toolbar, menus, keyboard handling, colour and image pickers and layout are UI.
  The font-size steps are floating-point arithmetic. None of these are modelled.
- The assembly files are object wiring. Only the wiring from the editor's completion to the list
  presenter's update is used, in `Flows`.
- NotesList.SortByDateDescending: among notes with equal dates the order is that of the model's insertion sort. The source's sort leaves this order unspecified, so no contract states it.
- NoteCell.Configure: the force-unwrap trap is ruled out by a precondition instead of being modelled as a crash; `Flows.RunKeepsRowsShowable` shows the precondition holds on every row when the index starts with titled rows and every update brings a titled note.
- NotesList.CellForRow: it composes the row's note, its first image and the cell rule. It has no contract of its own.
- NotesPresenter.FilterNotes: the source never calls it. It is modelled as written.
