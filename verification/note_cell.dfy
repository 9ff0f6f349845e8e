/**
 * The text a list cell shows for a note: a three-way choice of what goes into
 * the title label and the description label, driven by the note's optional
 * title and optional styled text.
 */
module NoteCell {
  import opened Optionals
  import opened StyledText

  const NoDescription := "Нет описания"

  /** The two label texts; an absent value clears the label. */
  datatype Labels = Labels(title: Option<string>, description: Option<string>)

  /** The plain string of an optional styled text, absent when the text is. */
  function PlainString(text: Option<Text>): (r: Option<string>)
    ensures r.Some? <==> text.Some?
  {
    match text
    case Some(t) => Some(Characters(t))
    case None => None
  }

  /** The body is present and its plain string is empty. */
  predicate EmptyBody(text: Option<Text>)
  {
    PlainString(text) == Some("")
  }

  /**
   * The rule reaches the force-unwrap of the title exactly when the body is
   * not empty, the title is not "", and the title is absent; this holds when
   * that cannot happen.
   */
  predicate ConfigureIsDefined(title: Option<string>, text: Option<Text>)
  {
    EmptyBody(text) || title.Some?
  }

  /**
   * The labels for a cell. An empty body wins: the title goes to the title
   * label and the description says there is none. Otherwise an empty title
   * gives its place to the body, and the description is cleared. Otherwise
   * the title and the body go to their own labels.
   */
  function Configure(title: Option<string>, text: Option<Text>): (l: Labels)
    requires ConfigureIsDefined(title, text)
    ensures EmptyBody(text) ==> l == Labels(title, Some(NoDescription))
    ensures !EmptyBody(text) && title == Some("") ==> l == Labels(PlainString(text), Some(""))
    ensures !EmptyBody(text) && title != Some("") ==> l == Labels(title, PlainString(text))
  {
    if EmptyBody(text) then Labels(title, Some(NoDescription))
    else if title == Some("") then Labels(PlainString(text), Some(""))
    else Labels(Some(title.value), PlainString(text))
  }

  /**
   * Nothing the note says is lost: a non-empty title is shown as the title,
   * a non-empty body is shown in one of the two labels, and the "no
   * description" text appears when the body is present but empty, and
   * otherwise only when the body itself reads so.
   */
  lemma ConfigureShowsContent(title: Option<string>, text: Option<Text>)
    requires ConfigureIsDefined(title, text)
    ensures title.Some? && title != Some("") ==> Configure(title, text).title == title
    ensures text.Some? && Characters(text.value) != "" ==>
      PlainString(text) in {Configure(title, text).title, Configure(title, text).description}
    ensures Configure(title, text).description == Some(NoDescription) <==>
      EmptyBody(text) || (title != Some("") && PlainString(text) == Some(NoDescription))
  {
  }
}
