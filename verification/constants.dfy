/**
 * The sessions page's constants: the column list, the default filters, the initial column
 * visibility, the team filter options, and the duration and score-tone formatters.
 */
module Constants {
  import opened Wrappers
  import opened SessionTypes
  import Text

  /** A column of the sessions table; the cell renderer is left out. */
  datatype Column = Column(key: ColumnKey, heading: string, minWidth: Option<nat>, customizable: bool)

  const BASE_COLUMNS: seq<Column> := [
    Column(Title, "Session", Some(240), false),
    Column(User, "User", Some(200), false),
    Column(Score, "Score", None, true),
    Column(Confidence, "Confidence", None, true),
    Column(Clarity, "Clarity", None, true),
    Column(Listening, "Listening", None, true),
    Column(Duration, "Duration", None, true),
    Column(CreatedAt, "Created", Some(200), false)
  ]

  function Keys(columns: seq<Column>): (r: seq<ColumnKey>)
    ensures |r| == |columns|
    ensures forall i :: 0 <= i < |columns| ==> r[i] == columns[i].key
  {
    seq(|columns|, i requires 0 <= i < |columns| => columns[i].key)
  }

  /** The column keys appear once each, and every key has a column. */
  lemma BaseColumnKeys()
    ensures forall i, j :: 0 <= i < j < |Keys(BASE_COLUMNS)| ==> Keys(BASE_COLUMNS)[i] != Keys(BASE_COLUMNS)[j]
    ensures forall k: ColumnKey :: k in Keys(BASE_COLUMNS)
  {
    var ks := Keys(BASE_COLUMNS);
    assert ks == [Title, User, Score, Confidence, Clarity, Listening, Duration, CreatedAt];
    forall k: ColumnKey
      ensures k in ks
    {
      match k
      case Title => assert ks[0] == k;
      case User => assert ks[1] == k;
      case Score => assert ks[2] == k;
      case Confidence => assert ks[3] == k;
      case Clarity => assert ks[4] == k;
      case Listening => assert ks[5] == k;
      case Duration => assert ks[6] == k;
      case CreatedAt => assert ks[7] == k;
    }
  }

  const TEAM_FILTER_OPTIONS: seq<string> := ["Sales", "Executive", "Engineering"]

  /** Score range [0, 10], no dates, no teams. */
  const DEFAULT_FILTERS: SessionFilters := SessionFilters(0.0, 10.0, DateRange(None, None), [])

  /** The `reduce` behind `createColumnVisibility`: every listed key maps to true. */
  function ShowAll(columns: seq<Column>): (r: map<ColumnKey, bool>)
    ensures forall k :: k in r <==> k in Keys(columns)
    ensures forall k :: k in r ==> r[k]
  {
    if columns == [] then map[]
    else
      var rest := ShowAll(columns[..|columns| - 1]);
      assert Keys(columns) == Keys(columns[..|columns| - 1]) + [columns[|columns| - 1].key];
      rest[columns[|columns| - 1].key := true]
  }

  /** `createColumnVisibility()`: all eight columns visible. */
  function CreateColumnVisibility(): (r: map<ColumnKey, bool>)
    ensures forall k: ColumnKey :: k in r && r[k]
  {
    BaseColumnKeys();
    ShowAll(BASE_COLUMNS)
  }

  datatype Tone = Emerald | Amber | Rose

  /** `scoreTone`: the badge colour for a score out of ten. */
  function ScoreTone(score: real): (r: Tone)
    ensures r == Emerald <==> score >= 7.5
    ensures r == Amber <==> 4.0 <= score < 7.5
    ensures r == Rose <==> score < 4.0
  {
    if score >= 7.5 then Emerald else if score >= 4.0 then Amber else Rose
  }

  /** "{h}h {m}m". */
  function HoursText(h: nat, m: nat): string {
    Text.NatToString(h) + "h " + Text.NatToString(m) + "m"
  }

  /** "{m}m {ss}s", the seconds padded to two digits. */
  function MinutesText(m: nat, s: nat): string {
    Text.NatToString(m) + "m " + Text.PadStart2(Text.NatToString(s)) + "s"
  }

  /** `formatDuration` for a whole, non-negative number of seconds. */
  function FormatDuration(seconds: nat): (r: string)
    ensures |r| > 0 && (seconds >= 3600 <==> r[|r| - 1] == 'm')
  {
    var minutes := seconds / 60;
    var remainingSeconds := seconds % 60;
    var hours := minutes / 60;
    var mins := minutes % 60;
    if hours > 0 then HoursText(hours, mins) else MinutesText(mins, remainingSeconds)
  }

  /** From one hour on, `h` hours, `m` minutes and `s` seconds read as "{h}h {m}m". */
  lemma FormatDurationHours(h: nat, m: nat, s: nat)
    requires h >= 1 && m < 60 && s < 60
    ensures FormatDuration(3600 * h + 60 * m + s) == HoursText(h, m)
  {
    var minutes := 60 * h + m;
    assert 3600 * h + 60 * m + s == 60 * minutes + s;
    DivMod60(minutes, s);
    DivMod60(h, m);
  }

  /** Under an hour, `m` minutes and `s` seconds read as "{m}m {ss}s", the seconds always
      two digits. */
  lemma FormatDurationMinutes(m: nat, s: nat)
    requires m < 60 && s < 60
    ensures FormatDuration(60 * m + s) == MinutesText(m, s)
    ensures |Text.PadStart2(Text.NatToString(s))| == 2
  {
    DivMod60(m, s);
    DivMod60(0, m);
  }

  lemma DivMod60(q: nat, rem: nat)
    requires rem < 60
    ensures (60 * q + rem) / 60 == q && (60 * q + rem) % 60 == rem
  {
  }
}
