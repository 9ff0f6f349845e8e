/**
 * The two shapes a note takes: the persisted row the store keeps in its
 * index (`Record`, the managed DBNote object) and the value handed out to
 * presenters (`Note`). Both carry the same five fields.
 */
module NoteModel {
  import opened Optionals
  import opened StyledText

  /** A persisted note row; dates are timestamps. */
  datatype Record = Record(
    id: string,
    text: Option<Text>,
    date: int,
    pinned: bool,
    title: Option<string>)

  /** A note as a value: changing a copy never touches the stored row. */
  datatype Note = Note(
    id: string,
    text: Option<Text>,
    date: int,
    pinned: bool,
    title: Option<string>)

  function RecordId(r: Record): string { r.id }

  function NoteId(n: Note): string { n.id }

  function IsPinned(n: Note): bool { n.pinned }

  function IsUnpinned(n: Note): bool { !n.pinned }

  /** The note a stored row reads as: every field copied, absent text and title included. */
  function FromRecord(r: Record): Note
  {
    Note(r.id, r.text, r.date, r.pinned, r.title)
  }

  /** The row a note is stored as, inverse of `FromRecord`. */
  function ToRecord(n: Note): Record
  {
    Record(n.id, n.text, n.date, n.pinned, n.title)
  }

  /** Reading a row as a note loses nothing: the row can be rebuilt from the note. */
  lemma FromRecordRoundTrip(r: Record)
    ensures ToRecord(FromRecord(r)) == r
    ensures FromRecord(r).id == r.id
    ensures FromRecord(r).text == r.text && FromRecord(r).title == r.title
    ensures FromRecord(r).date == r.date && FromRecord(r).pinned == r.pinned
  {
  }

  /** Distinct rows read as distinct notes. */
  lemma FromRecordInjective(a: Record, b: Record)
    ensures FromRecord(a) == FromRecord(b) <==> a == b
  {
    FromRecordRoundTrip(a);
    FromRecordRoundTrip(b);
  }
}
