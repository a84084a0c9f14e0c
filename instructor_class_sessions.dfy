/** client/src/pages/InstructorClassSessions.jsx: a second, separately written copy of the
    date-time helpers of ClassSessionsPage.jsx, used by the instructor's session page. */
module InstructorClassSessions {
  import opened Schema
  import opened JsString
  import ClassSessionsPage

  /** toInputDateTime (InstructorClassSessions.jsx:10-16): the same function as the
      administrator page's copy. */
  function ToInputDateTime(value: Option<string>): (r: string)
    ensures r == ClassSessionsPage.ToInputDateTime(value)
  {
    if value.None? || value.value == "" then ""
    else Slice(ReplaceFirst(value.value, ' ', 'T'), 16)
  }

  /** fromInputDateTime (InstructorClassSessions.jsx:18-22): the same function as the
      administrator page's copy. */
  function FromInputDateTime(value: Option<string>): (r: Option<string>)
    ensures r == ClassSessionsPage.FromInputDateTime(value)
  {
    if value.None? || value.value == "" then None
    else Some(ReplaceFirst(value.value, 'T', ' ') + ":00")
  }

  /** A datetime-local value survives a save followed by an edit on the instructor's page. */
  lemma InputRoundTrip(x: string)
    requires ClassSessionsPage.InputDateTime(x)
    ensures ToInputDateTime(FromInputDateTime(Some(x))) == x
  {
    ClassSessionsPage.InputRoundTrip(x);
  }

  /** A stored DATETIME edited and saved unchanged on the instructor's page loses its seconds. */
  lemma SecondsReset(v: string)
    requires ClassSessionsPage.SqlDateTime(v)
    ensures FromInputDateTime(Some(ToInputDateTime(Some(v)))) == Some(v[..17] + "00")
  {
    ClassSessionsPage.SecondsReset(v);
  }
}
