/**
 * Styled text (an attributed string) reduced to what the notes core looks at:
 * the character content, and for each run the value stored under the
 * attachment attribute. Fonts, colours and alignment are carried by the
 * editing surface and never inspected here.
 */
module StyledText {
  import opened Optionals

  /** A bitmap; only its identity matters to the model. */
  datatype Image = Image(handle: nat)

  /** What a run carries under the attachment attribute key. */
  datatype AttachmentValue =
    | NoAttachment
      /** some object that is not a text attachment */
    | ForeignValue
      /** a text attachment: `stored` is its own image property, `drawn` is
          what it renders for its bounds when asked (used only when `stored`
          is absent) */
    | TextAttachment(stored: Option<Image>, drawn: Option<Image>)

  /** A maximal stretch of characters sharing one attachment value. */
  datatype Run = Run(chars: string, attachment: AttachmentValue)

  /** An attributed string, as its runs in document order. */
  type Text = seq<Run>

  /** The attributed string built from the empty plain string. */
  const Empty: Text := []

  /** The plain character content of a styled text (its `string`). */
  function Characters(t: Text): string
  {
    if |t| == 0 then "" else t[0].chars + Characters(t[1..])
  }

  /**
   * The image an attachment run yields when attachments are enumerated: the
   * attachment's own image if it has one, otherwise the one it draws. Runs
   * without a text attachment yield nothing.
   */
  function ImageOf(r: Run): Option<Image>
  {
    match r.attachment
    case TextAttachment(stored, drawn) => if stored.Some? then stored else drawn
    case _ => None
  }
}
