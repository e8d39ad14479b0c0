/**
 * The records the sessions pages exchange with the server and with each other: sessions,
 * raw and normalised page responses, transcripts, session details, filters, sort state
 * and column keys. Fields the server may omit are optional.
 */
module SessionTypes {
  import opened Wrappers

  datatype SessionMetrics = SessionMetrics(confidence: real, clarity: real, listening: real)

  datatype Session = Session(
    id: string,
    userId: string,
    title: string,
    score: real,
    metrics: SessionMetrics,
    createdAt: string,
    duration: nat)

  /** A row of the sessions table: a session joined with its user's name and team. */
  datatype SessionTableRow = SessionTableRow(session: Session, userName: Option<string>, userTeam: Option<string>)

  /** The `/sessions` payload; every field may be missing. */
  datatype SessionsApiResponse = SessionsApiResponse(
    page: Option<int>,
    pageSize: Option<int>,
    sessions: Option<seq<Session>>,
    total: Option<int>)

  /** One normalised page of the infinite list. */
  datatype SessionsPage = SessionsPage(sessions: seq<Session>, nextPage: Option<int>)

  datatype BulkUpdatePayload = BulkUpdatePayload(sessionIds: seq<string>, feedback: string)

  datatype BulkUpdateResponse = BulkUpdateResponse(updated: int, failed: seq<string>)

  datatype Speaker = Agent | Customer

  datatype TranscriptEntry = TranscriptEntry(text: string, secondsFromStart: nat, speaker: Speaker)

  datatype SessionDetails = SessionDetails(
    id: string,
    userId: string,
    feedback: Option<string>,
    transcript: seq<TranscriptEntry>)

  /** The eight column keys of the sessions table. */
  datatype ColumnKey = Title | User | Score | Confidence | Clarity | Listening | CreatedAt | Duration

  datatype DateRange = DateRange(start: Option<string>, end: Option<string>)

  /** Filters: an inclusive score range `[lo, hi]`, a date range and the selected teams. */
  datatype SessionFilters = SessionFilters(scoreLo: real, scoreHi: real, dateRange: DateRange, teams: seq<string>)

  datatype SortDirection = Asc | Desc

  /** `{ column, direction }`, where both may be null. */
  datatype SessionSort = SessionSort(column: Option<ColumnKey>, direction: Option<SortDirection>)
}
