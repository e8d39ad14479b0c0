/**
 * The session details modal: what it shows for the selected table row, and what it passes to
 * the feedback panel and the transcript. Its duration and score-tone helpers are copies of
 * the sessions page's, so the model uses those definitions. Dates and one-decimal number
 * formatting are left out.
 */
module DetailsModal {
  import opened Wrappers
  import opened SessionTypes
  import Constants

  /** The modal's content, with the feedback panel's props when it is rendered. */
  datatype Content = Content(
    title: string,
    userName: string,
    userTeam: string,
    tone: Constants.Tone,
    duration: string,
    feedbackPanel: Option<Option<string>>,
    transcript: seq<TranscriptEntry>)

  /** `useSessionDetails`' `enabled: Boolean(sessionId)`: details are fetched only for a
      non-empty id. */
  predicate FetchesDetails(sessionId: Option<string>) {
    sessionId.Some? && sessionId.value != []
  }

  /** The modal for the selected row and the details loaded for it, if any. */
  function Render(row: Option<SessionTableRow>, details: Option<SessionDetails>): (r: Option<Content>)
    ensures r.None? <==> row.None?
    ensures r.Some? ==> r.value.title == row.value.session.title
    ensures r.Some? && row.value.userName.Some? ==> r.value.userName == row.value.userName.value
    ensures r.Some? && row.value.userName.None? ==> r.value.userName == "Unknown"
    ensures r.Some? && row.value.userTeam.Some? ==> r.value.userTeam == row.value.userTeam.value
    ensures r.Some? && row.value.userTeam.None? ==> r.value.userTeam == "Unassigned"
    ensures r.Some? ==> r.value.tone == Constants.ScoreTone(row.value.session.score)
    ensures r.Some? ==> r.value.duration == Constants.FormatDuration(row.value.session.duration)
    ensures r.Some? ==> (r.value.feedbackPanel.Some? <==> FetchesDetails(Some(row.value.session.id)))
    ensures r.Some? && r.value.feedbackPanel.Some? && details.Some? ==> r.value.feedbackPanel.value == details.value.feedback
    ensures r.Some? && r.value.feedbackPanel.Some? && details.None? ==> r.value.feedbackPanel.value.None?
    ensures r.Some? ==> r.value.transcript == (if details.Some? then details.value.transcript else [])
  {
    match row
    case None => None
    case Some(row) =>
      var s := row.session;
      var feedback := if details.Some? then details.value.feedback else None;
      Some(Content(
        s.title,
        row.userName.GetOr("Unknown"),
        row.userTeam.GetOr("Unassigned"),
        Constants.ScoreTone(s.score),
        Constants.FormatDuration(s.duration),
        if s.id != [] then Some(feedback) else None,
        if details.Some? then details.value.transcript else []))
  }

  /** A row for a session of an hour or more shows its duration in hours and minutes, and an
      excellent score gets the emerald tone. */
  lemma LongSessionExample(s: Session)
    requires s.duration == 3 * 3600 + 5 * 60 + 7 && s.score == 8.0
    ensures var c := Render(Some(SessionTableRow(s, None, None)), None).value;
            && c.duration == Constants.HoursText(3, 5)
            && c.tone == Constants.Emerald
            && c.userName == "Unknown" && c.userTeam == "Unassigned"
            && c.transcript == []
  {
    Constants.FormatDurationHours(3, 5, 7);
  }
}
