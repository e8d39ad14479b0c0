/**
 * The filters panel's editing operations over `SessionFilters`: the active-filters test,
 * clamped score edits, date edits, team toggling and reset. Each returns the filters the
 * panel hands to `onChange`.
 */
module FiltersPanel {
  import opened Wrappers
  import opened SessionTypes
  import Constants

  /** `Boolean(value)` for an optional string: present and non-empty. */
  predicate Truthy(value: Option<string>) {
    value.Some? && value.value != ""
  }

  /** `hasActiveFilters`: any departure from the default range, any date, any team. */
  predicate HasActiveFilters(f: SessionFilters) {
    || f.scoreLo != Constants.DEFAULT_FILTERS.scoreLo
    || f.scoreHi != Constants.DEFAULT_FILTERS.scoreHi
    || Truthy(f.dateRange.start) || Truthy(f.dateRange.end)
    || |f.teams| > 0
  }

  lemma InactiveIff(f: SessionFilters)
    ensures !HasActiveFilters(f) <==>
              && f.scoreLo == 0.0 && f.scoreHi == 10.0
              && f.dateRange.start in {None, Some("")}
              && f.dateRange.end in {None, Some("")}
              && f.teams == []
  {
  }

  function Clamp(raw: real): (v: real)
    ensures 0.0 <= v <= 10.0
    ensures 0.0 <= raw <= 10.0 ==> v == raw
    ensures raw < 0.0 ==> v == 0.0
    ensures raw > 10.0 ==> v == 10.0
  {
    if raw < 0.0 then 0.0 else if raw > 10.0 then 10.0 else raw
  }

  function RMin(a: real, b: real): real { if a < b then a else b }
  function RMax(a: real, b: real): real { if a < b then b else a }

  datatype Bound = MinBound | MaxBound

  /** `updateScore`: the clamped value moves one end of the range; a minimum above the
      maximum carries the maximum up with it, and a maximum below the minimum is raised to it. */
  function UpdateScore(f: SessionFilters, key: Bound, raw: real): (r: SessionFilters)
    ensures r.scoreLo <= r.scoreHi
    ensures r.dateRange == f.dateRange && r.teams == f.teams
    ensures 0.0 <= f.scoreLo <= f.scoreHi <= 10.0 ==> 0.0 <= r.scoreLo && r.scoreHi <= 10.0
    ensures key == MinBound ==> multiset{r.scoreLo, r.scoreHi} == multiset{Clamp(raw), f.scoreHi}
    ensures key == MaxBound ==> r.scoreLo == f.scoreLo && r.scoreHi >= Clamp(raw)
    ensures key == MaxBound && Clamp(raw) >= f.scoreLo ==> r.scoreHi == Clamp(raw)
    ensures key == MaxBound && Clamp(raw) < f.scoreLo ==> r.scoreHi == f.scoreLo
  {
    var value := Clamp(raw);
    var lo := f.scoreLo;
    var hi := f.scoreHi;
    if key == MinBound then f.(scoreLo := RMin(value, hi), scoreHi := RMax(value, hi))
    else f.(scoreLo := lo, scoreHi := RMax(value, lo))
  }

  /** A minimum above the current maximum is not rejected: it becomes the new maximum and the
      old maximum the new minimum. */
  lemma MinAboveMaxRaisesMax(f: SessionFilters, raw: real)
    requires Clamp(raw) > f.scoreHi
    ensures UpdateScore(f, MinBound, raw).scoreLo == f.scoreHi
    ensures UpdateScore(f, MinBound, raw).scoreHi == Clamp(raw)
  {
  }

  datatype DateKey = Start | End

  /** `updateDate`: one end of the date range takes the value; nothing else changes. */
  function UpdateDate(f: SessionFilters, key: DateKey, value: string): (r: SessionFilters)
    ensures r.scoreLo == f.scoreLo && r.scoreHi == f.scoreHi && r.teams == f.teams
    ensures key == Start ==> r.dateRange.start == Some(value) && r.dateRange.end == f.dateRange.end
    ensures key == End ==> r.dateRange.end == Some(value) && r.dateRange.start == f.dateRange.start
  {
    match key
    case Start => f.(dateRange := f.dateRange.(start := Some(value)))
    case End => f.(dateRange := f.dateRange.(end := Some(value)))
  }

  /** `filter((current) => current !== x)`. */
  function RemoveAll(s: seq<string>, x: string): (r: seq<string>)
    ensures x !in r
    ensures forall y :: y != x ==> (y in r <==> y in s)
    ensures |r| <= |s|
    ensures x !in s ==> r == s
  {
    if s == [] then []
    else if s[0] == x then RemoveAll(s[1..], x)
    else [s[0]] + RemoveAll(s[1..], x)
  }

  /** `toggleTeam`: membership of `team` flips, every other team keeps its membership, and an
      added team goes at the end. */
  function ToggleTeam(f: SessionFilters, team: string): (r: SessionFilters)
    ensures r.scoreLo == f.scoreLo && r.scoreHi == f.scoreHi && r.dateRange == f.dateRange
    ensures team in r.teams <==> team !in f.teams
    ensures forall t :: t != team ==> (t in r.teams <==> t in f.teams)
    ensures team !in f.teams ==> r.teams == f.teams + [team]
  {
    if team in f.teams then f.(teams := RemoveAll(f.teams, team)) else f.(teams := f.teams + [team])
  }

  /** Toggling an unselected team twice restores the filters. */
  lemma ToggleTwiceRestores(f: SessionFilters, team: string)
    requires team !in f.teams
    ensures ToggleTeam(ToggleTeam(f, team), team) == f
  {
    RemoveAllAppended(f.teams, team);
  }

  lemma {:induction false} RemoveAllAppended(s: seq<string>, x: string)
    requires x !in s
    ensures RemoveAll(s + [x], x) == s
  {
    if s != [] {
      assert (s + [x])[1..] == s[1..] + [x];
      RemoveAllAppended(s[1..], x);
    }
  }

  /** `resetFilters`. */
  function Reset(): (r: SessionFilters)
    ensures !HasActiveFilters(r)
    ensures r.teams == [] && r.dateRange == DateRange(None, None)
  {
    Constants.DEFAULT_FILTERS
  }
}
