# Sales-call analytics dashboard, modelled in Dafny

This project models the behaviour of a React dashboard for reviewing recorded sales calls. It covers three pages.

- **Sessions page**: a virtualised, sortable, drag-reorderable table of sessions loaded page by page. It has:
  - a filters panel with a score range, a date range and team filters, kept in the URL with undo/redo;
  - a column settings modal;
  - a bulk-feedback overlay;
  - a failed-sessions modal;
  - a session details modal with a searchable, highlighted transcript and an editable feedback panel.
- **Dashboard page**: per-team member lists with search, a drag order saved per team, top performers and tab counts.
- **Shared pieces**: the select dropdown, the generic data table, the alerts context, and the theme, local-storage, action-history and URL-sync hooks.

Each React hook or component becomes one module of pure functions:
- a state, and the events that change it;
- what is rendered, reduced to the values that decide it (which view, which label, which control is disabled).

Timers, effects and network callbacks become explicit events, such as the debounce flush, the end of an alert's exit animation and a save's outcome. Storage and the URL become maps and optional strings passed in and out. Contracts state what each operation guarantees, and lemmas relate operations to each other:
- undo/redo;
- the URL and filters staying in agreement;
- reorders being permutations and being restored from saved ids;
- search results being exactly the occurrences;
- highlighting spelling the original text.

Modules: `Wrappers` (Option), `Text` (trim, lower-casing, `indexOf`, decimal digits), `SessionTypes`, `SessionsData`, `ActionHistory`, `SyncFilters`, `Constants`, `FiltersPanel`, `SettingsModal`, `DragDrop`, `SessionsTable`, `DataTable`, `Dashboard`, `TeamMembers`, `Transcript`, `Feedback`, `FailedSessions`, `BulkOverlay`, `Select`, `Alerts`, `Theme`, `LocalStorage`, `DetailsModal`.

## Model

| member | source | states |
|---|---|---|
| Transcript.Occurrences | src/pages/Sessions/components/SessionDetailsModal/components/Transcript/Transcript.tsx:35-39 | the positions collected are exactly the start positions of the search term at or after the start, in increasing order |
| Transcript.MatchPositionsAreOccurrences | src/pages/Sessions/components/SessionDetailsModal/components/Transcript/Transcript.tsx:35-39 | the `indexOf` loop that steps one past each hit collects exactly those positions, overlapping hits included |
| Transcript.EntryResultsMembers | src/pages/Sessions/components/SessionDetailsModal/components/Transcript/Transcript.tsx:33-40 | one entry contributes exactly the results that carry its index and a lower-cased occurrence of the term |
| Transcript.ResultsFromMembers | src/pages/Sessions/components/SessionDetailsModal/components/Transcript/Transcript.tsx:27-43 | a result is collected from entry i on exactly when it is a match in an entry with index at least i |
| Transcript.ResultsFromOrdered | src/pages/Sessions/components/SessionDetailsModal/components/Transcript/Transcript.tsx:27-43 | results are ordered by entry index, then by position within the entry |
| Transcript.SearchResults | src/pages/Sessions/components/SessionDetailsModal/components/Transcript/Transcript.tsx:27-31 | a blank search term yields no results |
| Transcript.SearchResultsExactly | src/pages/Sessions/components/SessionDetailsModal/components/Transcript/Transcript.tsx:27-43 | for a non-blank term, the results are exactly the case-insensitive matches of the term in all entries, in transcript order |
| Transcript.NextFrom | src/pages/Sessions/components/SessionDetailsModal/components/Transcript/Transcript.tsx:149-168 | the next hit found from the last index is the leftmost occurrence at or after it and fits in the text; when there is none, no occurrence remains |
| Transcript.RoundSpells | src/pages/Sessions/components/SessionDetailsModal/components/Transcript/Transcript.tsx:151-166 | one round's plain part and matched part spell the text from the last index to the end of the match, and the matched part lower-cases to the term |
| Transcript.RoundCurrent | src/pages/Sessions/components/SessionDetailsModal/components/Transcript/Transcript.tsx:159 | a round marks its matched part current exactly when it starts at the current position |
| Transcript.RoundNoStart | src/pages/Sessions/components/SessionDetailsModal/components/Transcript/Transcript.tsx:151-158 | a round's plain part, which ends at the leftmost hit, contains no start of the term |
| Transcript.RoundOrdinal | src/pages/Sessions/components/SessionDetailsModal/components/Transcript/Transcript.tsx:159-166 | a round adds one match, marked current exactly when the running match count equals the current value |
| Transcript.NoStartAppend | src/pages/Sessions/components/SessionDetailsModal/components/Transcript/Transcript.tsx:149-173 | the no-start property of plain parts carries over when rounds are appended |
| Transcript.OrdinalAppend | src/pages/Sessions/components/SessionDetailsModal/components/Transcript/Transcript.tsx:149-173 | marking by ordinal carries over when rounds are appended, counting the earlier rounds' matches |
| Transcript.MatchCountAppend | src/pages/Sessions/components/SessionDetailsModal/components/Transcript/Transcript.tsx:161 | the match counter adds up over appended rounds |
| Transcript.LoopRound | src/pages/Sessions/components/SessionDetailsModal/components/Transcript/Transcript.tsx:149-173 | one round cut at the leftmost hit, followed by the rest of the loop, keeps every property of the loop: spelling, well-formedness, no term start in plain parts, and the current marking |
| Transcript.AlternatesAppend | src/pages/Sessions/components/SessionDetailsModal/components/Transcript/Transcript.tsx:149-173 | appending after a round, which ends with its match part, keeps plain parts apart |
| Transcript.HighlightLoop | src/pages/Sessions/components/SessionDetailsModal/components/Transcript/Transcript.tsx:149-173 | the parts spell the rest of the text, none is empty, every matched part equals the term ignoring case, no plain part contains a start of the term, no two plain parts are adjacent, the current part is the one at the current position (corrected) or the match whose ordinal equals the current value (as written) |
| Transcript.HighlightAsWritten | src/pages/Sessions/components/SessionDetailsModal/components/Transcript/Transcript.tsx:138-177 | as written: a blank term leaves the text plain; otherwise the parts spell the text, every occurrence is highlighted leftmost-first, plain text is never split, and the match marked current is the one whose ordinal equals the passed value |
| Transcript.HighlightText | src/pages/Sessions/components/SessionDetailsModal/components/Transcript/Transcript.tsx:138-177 | corrected highlighting: a blank term leaves the text plain; otherwise the parts spell the text, every occurrence is highlighted leftmost-first (no plain part contains a start of the term), plain text is never split, and the one marked current starts at the current result's position |
| Transcript.UnmarkedTextIsRejected | src/pages/Sessions/components/SessionDetailsModal/components/Transcript/Transcript.tsx:149-173 | leaving text that contains the term as one plain part does not meet the highlighting contract |
| Transcript.ExampleSearch | src/pages/Sessions/components/SessionDetailsModal/components/Transcript/Transcript.tsx:27-43 | in "ba a" the term "a" yields results at positions 1 and 3, and the first result hands position 1 to the highlighter |
| Transcript.HighlightMarksWrongMatch | src/pages/Sessions/components/SessionDetailsModal/components/Transcript/Transcript.tsx:159-167 | as written, for "ba a" with the current result at position 1, the match at position 3 is the one marked current |
| Transcript.HighlightMarksCurrentMatch | src/pages/Sessions/components/SessionDetailsModal/components/Transcript/Transcript.tsx:159-167 | corrected, the same input marks the match at position 1 |
| Transcript.NextMatch | src/pages/Sessions/components/SessionDetailsModal/components/Transcript/Transcript.tsx:75-78 | with results, the next index is a valid result index; without results it stays put |
| Transcript.PrevMatch | src/pages/Sessions/components/SessionDetailsModal/components/Transcript/Transcript.tsx:80-83 | with results, the previous index is a valid result index; without results it stays put |
| Transcript.MatchCyclingInverts | src/pages/Sessions/components/SessionDetailsModal/components/Transcript/Transcript.tsx:75-83 | next and previous undo each other, wrapping from the last result to the first and back |
| Transcript.KeyDown | src/pages/Sessions/components/SessionDetailsModal/components/Transcript/Transcript.tsx:93-125 | arrow keys cycle the current result while a search has results, other keys and an empty transcript change nothing |
| Transcript.FocusNavigation | src/pages/Sessions/components/SessionDetailsModal/components/Transcript/Transcript.tsx:110-119 | without search results, arrows move the focused entry within the transcript, starting at the first (down) or last (up) entry |
| Transcript.SearchChanged | src/pages/Sessions/components/SessionDetailsModal/components/Transcript/Transcript.tsx:85-90 | a non-blank search term clears the focused entry; the current result index is kept |
| Transcript.EstimateSize | src/pages/Sessions/components/SessionDetailsModal/components/Transcript/Transcript.tsx:53-58 | the estimated row height is at least 60, and 60 for an index outside the transcript |
| Transcript.EstimateSizeBands | src/pages/Sessions/components/SessionDetailsModal/components/Transcript/Transcript.tsx:53-58 | an entry of up to 100c characters, but more than 100(c-1), is estimated at 50 + 20c, or 60 when empty |
| Transcript.FormatTimeReads | src/pages/Sessions/components/SessionDetailsModal/components/Transcript/Transcript.tsx:8-12 | a time m*60+s reads as minutes, a colon and two digits whose value is s |
| ActionHistory.Commit | src/hooks/useActionHistory.ts:61-82 | a value equal to the current entry is skipped; otherwise the redo tail is dropped, the value appended, only the newest `limit` entries kept and the cursor set on the value |
| ActionHistory.Undo | src/hooks/useActionHistory.ts:121-126 | undo moves the cursor back one and returns that entry, or does nothing at the oldest entry |
| ActionHistory.Redo | src/hooks/useActionHistory.ts:128-133 | redo moves the cursor forward one and returns that entry, or does nothing at the newest entry |
| ActionHistory.Flush | src/hooks/useActionHistory.ts:96-102 | the debounce flush leaves no pending value and a valid history |
| ActionHistory.Step | src/hooks/useActionHistory.ts:84-133 | every push, flush, undo or redo keeps the cursor inside the entries |
| ActionHistory.RunKeepsBounds | src/hooks/useActionHistory.ts:55-133 | with a positive limit, any sequence of operations keeps the history within the limit |
| ActionHistory.FreshHistoryHasNothingToUndo | src/hooks/useActionHistory.ts:55-56 | a fresh history holds only the initial value, and undo and redo do nothing |
| ActionHistory.RedoUndoesUndo | src/hooks/useActionHistory.ts:107-133 | redo after undo restores the history and returns the entry undone |
| ActionHistory.CommitClearsRedo | src/hooks/useActionHistory.ts:64-79 | after a new value is committed there is nothing to redo |
| ActionHistory.NonPositiveLimitEmptiesHistory | src/hooks/useActionHistory.ts:74-76 | with a limit of zero or less a committed value empties the history |
| ActionHistory.PushAll | src/hooks/useActionHistory.ts:86-89 | a burst of pushes leaves only the last value pending |
| ActionHistory.PushesCollapse | src/hooks/useActionHistory.ts:85-105 | a burst of pushes followed by the flush commits only the last value |
| ActionHistory.UndoReachesOldest | src/hooks/useActionHistory.ts:121-126 | n undos move the cursor back n entries, and at the oldest entry undo returns nothing |
| ActionHistory.ShortcutCommandIff | src/hooks/useActionHistory.ts:139-149 | Cmd/Ctrl+Z means undo and Cmd/Ctrl+Shift+Z redo, for either case of z, and only while enabled |
| SyncFilters.ExternalSync | src/hooks/useSyncFilters.ts:100-121 | an absent, empty, self-written or unparsable URL value changes nothing; otherwise the URL stays as it is and the state stays well formed |
| SyncFilters.Mount | src/hooks/useSyncFilters.ts:46-56 | the first state is well formed |
| SyncFilters.MountFilters | src/hooks/useSyncFilters.ts:32-56 | the first filters are the defaults merged with the parsed URL value, or the defaults when it is absent, empty or unparsable; the history starts with them |
| SyncFilters.WriteToUrl | src/hooks/useSyncFilters.ts:58-68 | afterwards the serialised filters are recorded as last written; the URL is rewritten with them when they differ from what was last written and left alone otherwise |
| SyncFilters.SetFilters | src/hooks/useSyncFilters.ts:83-98 | an update that serialises the same is ignored; otherwise the filters change, the value is pushed to the history and written to the URL |
| SyncFilters.Step | src/hooks/useSyncFilters.ts:70-121 | every event keeps the state well formed |
| SyncFilters.Run | src/hooks/useSyncFilters.ts:70-121 | any sequence of events keeps the state well formed |
| SyncFilters.ExternalEqualOnlyRecords | src/hooks/useSyncFilters.ts:106-111 | an external URL value equal to the current filters is only recorded as seen |
| SyncFilters.ExternalChangeWins | src/hooks/useSyncFilters.ts:112-115 | an external URL value that differs replaces the filters and is pushed to the history |
| SyncFilters.UndoRedoConsistent | src/hooks/useSyncFilters.ts:74-80 | an applied undo or redo writes its filters to the URL and records them, so the URL effect does not see its own write as external |
| SyncFilters.StepKeepsConsistent | src/hooks/useSyncFilters.ts:51-121 | each event keeps the URL and the filters in agreement |
| SyncFilters.ExternalKeepsConsistent | src/hooks/useSyncFilters.ts:100-121 | the URL effect keeps the URL and the filters in agreement |
| SyncFilters.RunKeepsConsistent | src/hooks/useSyncFilters.ts:51-121 | any sequence of events keeps the URL and the filters in agreement |
| SyncFilters.OwnWritesAreNotExternal | src/hooks/useSyncFilters.ts:58-66 | the URL value a filter change writes is not taken for an external change |
| SessionsData.CeilDiv | src/data-access/useSessions/useSessions.ts:32 | `Math.ceil(a / b)` is the least multiple count covering a |
| SessionsData.ExtractSessions | src/data-access/useSessions/useSessions.ts:20-43 | the page's sessions are passed through, missing ones as empty; the next page, when there is one, is the page after |
| SessionsData.NextPageIff | src/data-access/useSessions/useSessions.ts:32-40 | there is a next page exactly when the pages so far do not reach the total or the page is full |
| SessionsData.PagingExample | src/data-access/useSessions/useSessions.ts:20-43 | 120 sessions in pages of 50 give a next page after pages 1 and 2 and none after page 3 |
| SessionsData.Flatten | src/data-access/useSessions/useSessions.ts:69 | the flattened list is as long as all pages together |
| SessionsData.FlattenAppend | src/data-access/useSessions/useSessions.ts:69 | loading a page appends its sessions to the flattened list |
| SessionsData.FlattenPlacesPage | src/data-access/useSessions/useSessions.ts:69 | session i of page k sits at the number of sessions before page k plus i |
| SessionsData.BulkUpdateMarksSessionLists | src/data-access/useSessions/useSessions.ts:82-85 | a successful bulk update marks every session list stale and a failed one marks nothing |
| FiltersPanel.InactiveIff | src/pages/Sessions/components/FiltersPanel/FiltersPanel.tsx:14-21 | filters are inactive exactly when the score range is 0 to 10, both dates are unset or empty and no team is selected |
| FiltersPanel.Clamp | src/pages/Sessions/components/FiltersPanel/FiltersPanel.tsx:25 | a slider value is clamped to 0..10 and kept when already inside |
| FiltersPanel.UpdateScore | src/pages/Sessions/components/FiltersPanel/FiltersPanel.tsx:23-32 | moving one end of the score range keeps min at most max: a min above max carries max up, a max below min is raised to min |
| FiltersPanel.MinAboveMaxRaisesMax | src/pages/Sessions/components/FiltersPanel/FiltersPanel.tsx:28 | a minimum above the maximum becomes the new maximum and the old maximum the new minimum |
| FiltersPanel.UpdateDate | src/pages/Sessions/components/FiltersPanel/FiltersPanel.tsx:34-45 | changing one date sets it and leaves the other date and all other filters alone |
| FiltersPanel.RemoveAll | src/pages/Sessions/components/FiltersPanel/FiltersPanel.tsx:51 | removing a team removes every copy of it and keeps every other team |
| FiltersPanel.ToggleTeam | src/pages/Sessions/components/FiltersPanel/FiltersPanel.tsx:47-56 | toggling a team adds it at the end when absent and removes it when present, other teams unchanged |
| FiltersPanel.ToggleTwiceRestores | src/pages/Sessions/components/FiltersPanel/FiltersPanel.tsx:47-56 | toggling an unselected team twice gives back the same filters |
| FiltersPanel.Reset | src/pages/Sessions/components/FiltersPanel/FiltersPanel.tsx:58 | resetting yields inactive filters |
| Constants.BaseColumnKeys | src/pages/Sessions/constants.ts:57-145 | the columns have distinct keys and cover every column key |
| Constants.ShowAll | src/pages/Sessions/constants.ts:153-157 | the visibility map has exactly the columns' keys, all shown |
| Constants.CreateColumnVisibility | src/pages/Sessions/constants.ts:153-157 | the default visibility shows every column |
| Constants.ScoreTone | src/pages/Sessions/constants.ts:9-17 | scores from 7.5 are emerald, from 4 to below 7.5 amber, and below 4 rose |
| Constants.FormatDuration | src/pages/Sessions/constants.ts:31-41 | a duration reads in hours and minutes exactly from one hour on |
| Constants.FormatDurationHours | src/pages/Sessions/constants.ts:33-39 | h hours, m minutes and s seconds read "{h}h {m}m" |
| Constants.FormatDurationMinutes | src/pages/Sessions/constants.ts:33-40 | under an hour, m minutes and s seconds read "{m}m {ss}s" with seconds padded to two digits |
| SettingsModal.ToggleColumn | src/pages/Sessions/components/SettingsModal/SettingsModal.tsx:32-37 | hiding the last visible column is refused; any other toggle sets that column and leaves the rest |
| SettingsModal.ToggleCount | src/pages/Sessions/components/SettingsModal/SettingsModal.tsx:27-37 | an accepted toggle changes the number of visible columns by exactly one, or not at all when already in that state |
| SettingsModal.ToggleKeepsOneVisible | src/pages/Sessions/components/SettingsModal/SettingsModal.tsx:32-36 | at least one column stays visible |
| SettingsModal.DisabledIffSoleVisible | src/pages/Sessions/components/SettingsModal/SettingsModal.tsx:98-99 | a checkbox is disabled exactly when its column is the only one visible, which is exactly when unchecking it is refused |
| SettingsModal.OnPageSizeInput | src/pages/Sessions/components/SettingsModal/SettingsModal.tsx:80-83 | any number typed, fractional or out of range, is kept as is, and NaN becomes the minimum page size |
| SettingsModal.ClampPageSize | src/pages/Sessions/components/SettingsModal/SettingsModal.tsx:40 | the saved page size is clamped to 10..100 and kept unchanged, fraction included, when inside |
| SettingsModal.Save | src/pages/Sessions/components/SettingsModal/SettingsModal.tsx:39-46 | saving applies a page size within bounds and the edited column visibility |
| SettingsModal.ClampIdempotent | src/pages/Sessions/components/SettingsModal/SettingsModal.tsx:40 | clamping a clamped page size changes nothing |
| SettingsModal.FractionalSizeIsApplied | src/pages/Sessions/components/SettingsModal/SettingsModal.tsx:39-83 | a typed size inside the bounds, 12.5 for one, reaches `onApply` unrounded |
| SessionsTable.HandleSortClick | src/pages/Sessions/components/SessionsTable/SessionsTable.tsx:81-113 | without a sort handler nothing happens; otherwise the new sort has a column exactly when it has a direction, and that column is the clicked one |
| SessionsTable.SortCycle | src/pages/Sessions/components/SessionsTable/SessionsTable.tsx:100-107 | repeated clicks on one column cycle ascending, descending, unsorted |
| SessionsTable.OtherColumnSortsAscending | src/pages/Sessions/components/SessionsTable/SessionsTable.tsx:108-110 | clicking a column other than the sorted one sorts it ascending |
| SessionsTable.AllKeysSortable | src/pages/Sessions/components/SessionsTable/SessionsTable.tsx:85-94 | every column key is accepted by the sort handler |
| SessionsTable.HeaderActivate | src/pages/Sessions/components/SessionsTable/SessionsTable.tsx:147-168 | a header sorts on click, Enter or Space, and only for its sortable columns |
| SessionsTable.LoaderRowIsLast | src/pages/Sessions/components/SessionsTable/SessionsTable.tsx:40-268 | while a next page exists the loader row is the one after the last session, and every other row is a session |
| SessionsTable.NextPageOnlyWhenGated | src/pages/Sessions/components/SessionsTable/SessionsTable.tsx:51-74 | after any sequence of renders, an intersection requests the next page only while the table shows its sentinel, a next page exists and none is being fetched |
| SessionsTable.DepsChangeAttaches | src/pages/Sessions/components/SessionsTable/SessionsTable.tsx:51-74 | when `hasNextPage` or `isFetchingNextPage` changes, an observer is attached exactly when the sentinel is mounted and no page is in flight |
| SessionsTable.RetryStallsInfiniteScroll | src/pages/Sessions/components/SessionsTable/SessionsTable.tsx:51-74 | as written, after a failed next-page fetch shows the error view and a retry brings the table back with the same dependencies, no observer watches the sentinel and scrolling requests nothing |
| SessionsTable.FixedRequestsIffGated | src/pages/Sessions/components/SessionsTable/SessionsTable.tsx:51-74 | corrected (effect re-run when the sentinel mounts or unmounts), after any sequence of renders an intersection requests the next page exactly when the sentinel is shown, a next page exists and none is in flight |
| SessionsTable.RetryResumesWhenFixed | src/pages/Sessions/components/SessionsTable/SessionsTable.tsx:51-74 | corrected, the same retry sequence resumes infinite scroll |
| SessionsTable.Drop | src/pages/Sessions/components/SessionsTable/SessionsTable.tsx:194-206 | a drop with dragging on resets the drag state and reorders exactly when the source differs from the target |
| SessionsTable.DragGestureReorders | src/pages/Sessions/components/SessionsTable/SessionsTable.tsx:181-206 | dragging row i over row j and dropping reorders from i to j |
| SessionsTable.DisabledDragIsInert | src/pages/Sessions/components/SessionsTable/SessionsTable.tsx:181-195 | with dragging off, drag events change nothing and a drop reorders nothing |
| SessionsTable.RenderState | src/pages/Sessions/components/SessionsTable/SessionsTable.tsx:217-250 | exactly one of error, skeleton, empty and table view is shown, and which |
| SessionsTable.RowKeyCallsClick | src/pages/Sessions/components/SessionsTable/SessionsTable.tsx:296-298 | in the table a row key press opens the row only for Space |
| DragDrop.Start | src/pages/Sessions/components/SessionsTable/SessionsTable.tsx:181-184 | starting a drag records the source row |
| DragDrop.Over | src/pages/Sessions/components/SessionsTable/SessionsTable.tsx:186-192 | dragging over a row records it as the target, keeping the source |
| DragDrop.Settle | src/pages/Sessions/components/SessionsTable/SessionsTable.tsx:197-205 | a drop resets the drag and reports a move exactly when source and target differ |
| DragDrop.End | src/pages/Sessions/components/SessionsTable/SessionsTable.tsx:208-211 | ending a drag clears both source and target |
| DragDrop.Leave | src/pages/Sessions/components/SessionsTable/SessionsTable.tsx:213-215 | leaving a row clears the target and keeps the source |
| DataTable.CellAlignment | src/components/DataTable/DataTable.tsx:6-10 | centre and right give their classes, and anything else left alignment |
| DataTable.BodyHasOneState | src/components/DataTable/DataTable.tsx:159-191 | the body shows exactly one of error, skeleton, empty state and data rows |
| DataTable.HandleKeyDown | src/components/DataTable/DataTable.tsx:95-101 | a row opens on Enter or Space when it has a click handler |
| DataTable.Drop | src/components/DataTable/DataTable.tsx:116-128 | a drop with dragging on resets the drag, and reorders only with a handler and a different target |
| DataTable.DisabledDragIsInert | src/components/DataTable/DataTable.tsx:103-137 | with dragging off, drag events change nothing; ending or leaving a drag clears its target |
| Dashboard.LastWith | src/pages/Dashboard/Dashboard.tsx:23-25 | the member found for an id carries that id, and none is found exactly when no member has it |
| Dashboard.SingleIdFilter | src/pages/Dashboard/Dashboard.tsx:23-25 | with unique ids, the map lookup finds the one member with that id |
| Dashboard.Picked | src/pages/Dashboard/Dashboard.tsx:24-26 | the picked members are members whose ids are listed, at most one per id |
| Dashboard.PickedAppend | src/pages/Dashboard/Dashboard.tsx:24-26 | one more listed id appends its member, if any, after those already picked: the result follows the list's order |
| Dashboard.PickedIsWithIdIn | src/pages/Dashboard/Dashboard.tsx:24-26 | with unique ids, the picked members are exactly the members whose ids are listed |
| Dashboard.PickedAll | src/pages/Dashboard/Dashboard.tsx:24-26 | listing the ids of some members picks exactly those members, in that order |
| Dashboard.Unlisted | src/pages/Dashboard/Dashboard.tsx:27 | the remaining members are exactly those whose ids are not listed |
| Dashboard.NothingUnlisted | src/pages/Dashboard/Dashboard.tsx:27 | when every member is listed nothing remains |
| Dashboard.UnlistedIsComplement | src/pages/Dashboard/Dashboard.tsx:24-29 | listed and unlisted members together are all members |
| Dashboard.OrderMembersByIds | src/pages/Dashboard/Dashboard.tsx:18-30 | without a saved order the members are unchanged; otherwise the listed ones come first in list order, then the rest |
| Dashboard.OrderIsPermutation | src/pages/Dashboard/Dashboard.tsx:18-30 | with unique ids, ordering by a saved order is a permutation |
| Dashboard.SavedOrderIsRestored | src/pages/Dashboard/Dashboard.tsx:18-30 | ordering by the ids of a reordering reproduces that reordering |
| Dashboard.Ids | src/pages/Dashboard/Dashboard.tsx:104-112 | the saved order is the members' ids in order |
| Dashboard.HandleReorderMembers | src/pages/Dashboard/Dashboard.tsx:104-112 | a reorder saves the ids for the active tab and leaves other tabs' orders alone |
| Dashboard.MatchingMembers | src/pages/Dashboard/Dashboard.tsx:73-78 | the tab's list has exactly the team's users whose lower-cased first name contains the trimmed lower-cased search |
| Dashboard.UsersForTabExactly | src/pages/Dashboard/Dashboard.tsx:73-80 | the shown list is a reordering of exactly the matching users |
| Dashboard.ReorderIsShown | src/pages/Dashboard/Dashboard.tsx:73-80 | after a reorder without a search, the tab shows the members in the new order |
| Dashboard.OfTeam | src/pages/Dashboard/Dashboard.tsx:85 | the team's users are exactly the users with that team name |
| Dashboard.Insert | src/pages/Dashboard/Dashboard.tsx:86 | insertion adds exactly the new member |
| Dashboard.InsertSorted | src/pages/Dashboard/Dashboard.tsx:86 | insertion into a descending list keeps it descending |
| Dashboard.SortByScoreDesc | src/pages/Dashboard/Dashboard.tsx:86 | the sort is a permutation with scores descending |
| Dashboard.TopPerformers | src/pages/Dashboard/Dashboard.tsx:82-89 | at most three of the team's users, best score first |
| Dashboard.TopPerformersAreTop | src/pages/Dashboard/Dashboard.tsx:82-89 | the top list has min(3, team size) of the team's users and nobody left out scores higher than anyone in it |
| Dashboard.TabsWithCounts | src/pages/Dashboard/Dashboard.tsx:91-98 | each tab carries the number of users in its team |
| Dashboard.CountsPartitionUsers | src/pages/Dashboard/Dashboard.tsx:91-98 | the three tab counts and the users outside the three teams add up to all users |
| Dashboard.TeamFilterOptionsAreDepartments | src/pages/Sessions/constants.ts:55 | the sessions page's team filter offers exactly the dashboard's three team names, in tab order |
| TeamMembers.RemoveAt | src/pages/Dashboard/components/TeamMembers/TeamMembers.tsx:25 | removing at i keeps the items before i and shifts the rest down |
| TeamMembers.InsertAt | src/pages/Dashboard/components/TeamMembers/TeamMembers.tsx:26 | inserting at i puts the item at i and keeps all others around it |
| TeamMembers.MoveItem | src/pages/Dashboard/components/TeamMembers/TeamMembers.tsx:24-26 | the moved item lands at the target, and the others keep their relative order |
| TeamMembers.MoveIsPermutation | src/pages/Dashboard/components/TeamMembers/TeamMembers.tsx:22-28 | a move is a permutation |
| TeamMembers.MoveOntoItselfIsIdentity | src/pages/Dashboard/components/TeamMembers/TeamMembers.tsx:22-28 | moving an item onto its own place changes nothing |
| TeamMembers.HandleReorder | src/pages/Dashboard/components/TeamMembers/TeamMembers.tsx:22-28 | the parent receives the moved list only when it passed a reorder handler |
| Feedback.Original | src/pages/Sessions/components/SessionDetailsModal/components/Feedback/Feedback.tsx:55 | the saved feedback, or empty when there is none |
| Feedback.Initial | src/pages/Sessions/components/SessionDetailsModal/components/Feedback/Feedback.tsx:17-18 | the editor starts closed with the saved feedback |
| Feedback.Sync | src/pages/Sessions/components/SessionDetailsModal/components/Feedback/Feedback.tsx:26-30 | outside edit mode the draft follows the saved feedback; while editing it is kept |
| Feedback.Edit | src/pages/Sessions/components/SessionDetailsModal/components/Feedback/Feedback.tsx:43-46 | editing starts from the saved feedback |
| Feedback.Cancel | src/pages/Sessions/components/SessionDetailsModal/components/Feedback/Feedback.tsx:48-51 | cancel leaves edit mode and sets the draft back to the saved feedback |
| Feedback.CancelDiscardsDraft | src/pages/Sessions/components/SessionDetailsModal/components/Feedback/Feedback.tsx:26-51 | whatever was typed, cancel ends in the same editor, the one the sync effect gives a closed editor, and a later sync keeps it |
| Feedback.Save | src/pages/Sessions/components/SessionDetailsModal/components/Feedback/Feedback.tsx:53-64 | save leaves edit mode; it sends nothing exactly when the trimmed draft equals the saved feedback, and otherwise sends the trimmed draft for this session |
| Feedback.SavedFeedbackIsTrimmed | src/pages/Sessions/components/SessionDetailsModal/components/Feedback/Feedback.tsx:54 | sent feedback neither starts nor ends with white space |
| Feedback.OnMutate | src/pages/Sessions/components/SessionDetailsModal/components/Feedback/Feedback.tsx:66-83 | the optimistic update writes the new feedback into this session's cached details only, and keeps the previous details for rollback |
| Feedback.Settle | src/pages/Sessions/components/SessionDetailsModal/components/Feedback/Feedback.tsx:84-99 | success shows the success alert; failure restores the previous details, reopens the editor and shows the error alert; the session's details are refetched either way and the lists only after success |
| Feedback.UnchangedSaveSendsNothing | src/pages/Sessions/components/SessionDetailsModal/components/Feedback/Feedback.tsx:53-58 | saving unchanged feedback sends nothing and leaves the editor as after a cancel, as written and corrected |
| Feedback.FailedSaveRollsBack | src/pages/Sessions/components/SessionDetailsModal/components/Feedback/Feedback.tsx:53-99 | corrected (optimistic write running): a failed save leaves the cache as before, shows the error alert and reopens the editor on the trimmed draft, which the sync effect kept from the optimistic write |
| Feedback.FailedSaveLosesDraft | src/pages/Sessions/components/SessionDetailsModal/components/Feedback/Feedback.tsx:53-99 | as written (optimistic write never running): the editor closes on the saved feedback during the request, the cache is unchanged, and a failure reopens it on the saved feedback rather than the draft |
| Feedback.DraftLostExample | src/pages/Sessions/components/SessionDetailsModal/components/Feedback/Feedback.tsx:53-99 | saved "old", draft "new ", failed request: as written the editor reopens on "old", corrected on "new" |
| Feedback.SuccessfulSaveWritesThrough | src/pages/Sessions/components/SessionDetailsModal/components/Feedback/Feedback.tsx:66-99 | corrected: a successful save stores the trimmed feedback for this session only, closes the editor and marks the session's details and every list stale |
| FailedSessions.SessionMap | src/pages/Sessions/components/FailedSessionsModal/FailedSessionsModal.tsx:12 | every id maps to a session with that id |
| FailedSessions.SessionMapKeys | src/pages/Sessions/components/FailedSessionsModal/FailedSessionsModal.tsx:12 | an id is in the map exactly when some session has it |
| FailedSessions.SessionMapKeepsLast | src/pages/Sessions/components/FailedSessionsModal/FailedSessionsModal.tsx:12 | the map keeps the last session with each id |
| FailedSessions.Lookup | src/pages/Sessions/components/FailedSessionsModal/FailedSessionsModal.tsx:13-15 | the found sessions are exactly the map's values for listed ids that are present |
| FailedSessions.LookupAppend | src/pages/Sessions/components/FailedSessionsModal/FailedSessionsModal.tsx:13-15 | one more id appends its session when present and nothing otherwise, keeping list order |
| FailedSessions.FailedList | src/pages/Sessions/components/FailedSessionsModal/FailedSessionsModal.tsx:11-16 | every listed session has a failed id, at most one per id |
| FailedSessions.FailedListMembers | src/pages/Sessions/components/FailedSessionsModal/FailedSessionsModal.tsx:11-16 | a session is listed exactly when its id failed and it is the last session with that id |
| FailedSessions.FailedListAppend | src/pages/Sessions/components/FailedSessionsModal/FailedSessionsModal.tsx:11-16 | one more failed id appends its last session, or nothing when unknown |
| FailedSessions.Noun | src/pages/Sessions/components/FailedSessionsModal/FailedSessionsModal.tsx:37 | "session" exactly for one failure, else "sessions" |
| FailedSessions.TitleCountsList | src/pages/Sessions/components/FailedSessionsModal/FailedSessionsModal.tsx:22 | the title reads "Failed Sessions (n)" with n the number of failed sessions found |
| BulkOverlay.Render | src/pages/Sessions/components/BulkFeedbackOverlay/BulkFeedbackOverlay.tsx:10-58 | the overlay is hidden exactly when nothing is selected; the warning shows at the limit (default 100); submitting disables inputs; submit is disabled while submitting or for blank feedback |
| BulkOverlay.DefaultLimitWarning | src/pages/Sessions/components/BulkFeedbackOverlay/BulkFeedbackOverlay.tsx:11-17 | with the default limit the warning appears from the 100th session |
| BulkOverlay.CountLabelReads | src/pages/Sessions/components/BulkFeedbackOverlay/BulkFeedbackOverlay.tsx:26 | the label reads the count then "session selected" exactly for one, else "sessions selected" |
| Select.FindIndex | src/components/Select/Select.tsx:138 | the index found is the first option whose value reads the same as the given value |
| Select.FindIndexNone | src/components/Select/Select.tsx:137-140 | nothing is found exactly when no option matches |
| Select.DisplayValue | src/components/Select/Select.tsx:69-70 | the trigger shows the first matching option's text, else the placeholder, else "Select an option" |
| Select.AbsentValueMatchesUndefinedString | src/components/Select/Select.tsx:69 | an absent value matches an option whose value is the string "undefined" |
| Select.Toggle | src/components/Select/Select.tsx:133-144 | opening focuses the first option matching a truthy value, else the first option; closing keeps the focus; disabled does nothing |
| Select.Key | src/components/Select/Select.tsx:98-131 | while open, arrows move focus within the options, Enter chooses the focused option and closes, Escape closes; nothing happens while closed |
| Select.StepKeepsValid | src/components/Select/Select.tsx:83-144 | every event keeps focus on an option while open |
| Select.ChangesComeFromOptions | src/components/Select/Select.tsx:72-80 | any value handed to the parent is an option's value, and choosing closes the list |
| Select.EnterSelectsFocused | src/components/Select/Select.tsx:111-116 | Enter on an open list chooses the focused option |
| Select.ReopenFocusesChosen | src/components/Select/Select.tsx:133-144 | reopening after choosing an option focuses that option again |
| Alerts.AutoDismissDelay | src/context/AlertsContext.tsx:64-68 | alerts with a call to action stay 10 seconds, others 5 |
| Alerts.ShowAlert | src/context/AlertsContext.tsx:57-71 | a new alert is appended after the existing ones, with its dismissal delay |
| Alerts.BeginRemove | src/context/AlertsContext.tsx:42-44 | removal first marks the alert as exiting and keeps it shown |
| Alerts.WithoutId | src/context/AlertsContext.tsx:48 | filtering drops exactly the alerts with that id |
| Alerts.CompleteRemove | src/context/AlertsContext.tsx:47-54 | after the exit delay the alert is gone and no longer marked exiting |
| Alerts.RemoveUnknownId | src/context/AlertsContext.tsx:48 | removing an unknown id leaves the alerts as they were |
| Alerts.RemoveTwice | src/context/AlertsContext.tsx:42-55 | removing twice is the same as removing once |
| Alerts.ShowThenRemoveRestores | src/context/AlertsContext.tsx:42-71 | showing an alert and then removing it gives back the earlier state |
| Alerts.RemoveKeepsOthersInOrder | src/context/AlertsContext.tsx:48 | removal keeps the other alerts in their order |
| Theme.StoredTheme | src/hooks/useTheme.ts:7-13 | only "dark" or "light" stored under "theme" counts as a stored theme |
| Theme.InitialTheme | src/hooks/useTheme.ts:34 | the stored theme wins over the system preference |
| Theme.Persist | src/hooks/useTheme.ts:36-41 | the effect makes the document and storage agree with the theme, and touches no other key |
| Theme.SetTheme | src/hooks/useTheme.ts:60-62 | a change of theme is persisted |
| Theme.Mount | src/hooks/useTheme.ts:34-41 | after the first render the theme is the initial one and it is stored |
| Theme.Toggle | src/hooks/useTheme.ts:60-62 | toggling switches the theme and persists it |
| Theme.ToggleTwice | src/hooks/useTheme.ts:60-62 | toggling twice gives back the same state |
| Theme.MediaChange | src/hooks/useTheme.ts:48-55 | with a stored theme a system change does not move the theme; without one the theme follows the system |
| Theme.StepsStayConsistent | src/hooks/useTheme.ts:36-62 | toggles and system changes keep the document and storage in step with the theme |
| Theme.MediaChangeIgnoredAfterMount | src/hooks/useTheme.ts:36-55 | as written, once mounted a system change never moves the theme |
| Theme.SystemSwitchIgnored | src/hooks/useTheme.ts:36-55 | as written, with nothing stored and the system switching from light to dark, the theme stays light |
| Theme.MountFollowingSystem | src/hooks/useTheme.ts:34-41 | corrected: the first render applies the theme without storing it |
| Theme.MediaChangeFollowingSystem | src/hooks/useTheme.ts:48-55 | corrected: without a stored theme a system change moves the theme, and nothing is stored |
| Theme.CorrectedFollowsSystemUntilToggle | src/hooks/useTheme.ts:43-62 | corrected: the theme follows the system until the user toggles, and then keeps the choice |
| LocalStorage.Initial | src/hooks/useLocalStorage.ts:19-30 | the stored value is read when storage works and it parses; otherwise the initial value is used |
| LocalStorage.SetValue | src/hooks/useLocalStorage.ts:32-42 | the state always takes the new value; storage is written only when serialising and writing succeed, and no other key changes |
| LocalStorage.StorageEvent | src/hooks/useLocalStorage.ts:44-53 | only an event for this key with a non-empty value that parses changes the state |
| LocalStorage.ReloadReadsWrittenValue | src/hooks/useLocalStorage.ts:19-42 | a value written and read back on reload is the same value |
| LocalStorage.OtherTabFollows | src/hooks/useLocalStorage.ts:32-53 | another tab's write reaches this tab through the storage event |
| LocalStorage.UnavailableStorageIsPlainState | src/hooks/useLocalStorage.ts:19-42 | without storage the hook behaves as plain state |
| DetailsModal.Render | src/pages/Sessions/components/SessionDetailsModal/SessionDetailsModal.tsx:41-138 | the modal shows the selected row's title, user ("Unknown"/"Unassigned" when missing), score tone and duration, and the loaded transcript; the feedback panel appears only for a non-empty session id |
| DetailsModal.LongSessionExample | src/pages/Sessions/components/SessionDetailsModal/SessionDetailsModal.tsx:19-39 | a session of 3h 5m 7s reads "3h 5m" and a score of 8 is emerald |
| Text.Trim | src/pages/Sessions/components/SessionDetailsModal/components/Feedback/Feedback.tsx:54 | the trimmed text is the input with only its leading and trailing white space removed: a slice preceded and followed by white space only, itself neither starting nor ending with white space, and empty exactly when the input is all white space |
| Text.IndexOf | src/pages/Sessions/components/SessionDetailsModal/components/Transcript/Transcript.tsx:35-38 | `indexOf` returns the first occurrence at or after the start, or -1 when there is none |
| Text.ContainsIff | src/pages/Dashboard/Dashboard.tsx:77 | `includes` holds exactly when the text contains the term somewhere |
| Text.NatToStringRoundTrip | src/pages/Sessions/components/BulkFeedbackOverlay/BulkFeedbackOverlay.tsx:26 | a count's decimal digits read back as the count |
| Text.PadStart2 | src/pages/Sessions/constants.ts:40 | `padStart(2, "0")` keeps the text at the end and pads with zeros to two characters |
## Left out

- Rendering: JSX, CSS classes, icons and layout. Only the values that decide what is shown are modelled.
- Virtualiser geometry: `getVirtualItems`, `scrollToIndex`, `measureElement` and total size. Only the row count, the loader row and the size estimate are modelled.
- DOM focus moves and `preventDefault`. These have no state in the model.
- Network and React Query internals. Query cancellation, refetching and cache invalidation become a list of invalidated query keys. The mutation's outcome is a parameter.
- Timers are explicit events, because wall-clock time is outside a pure model:
  - the debounce timer becomes `Flush`;
  - the alert exit animation becomes `CompleteRemove`;
  - the auto-dismiss delay is returned as a number.
- Clocks and randomness: alert ids (`Date.now`, `Math.random`) are a parameter.
- JSON: serialisation and parsing are an abstract codec whose failure is `None`. A throwing `setValue` updater is not modelled.
- Floating point:
  - scores are `real`;
  - durations and transcript times are whole seconds (`nat`), so `formatDuration`'s branch for non-finite input and fractional seconds are left out;
  - a NaN slider value in the filters panel is not modelled;
  - the settings modal's page-size input is NaN or a finite number, fractions included (a fraction inside the bounds reaches `onApply` unrounded); the infinities `Number(...)` can give are not modelled.
- Date and number formatting (`toLocaleString`, `toFixed`, date display) and custom cell renderers are left out.
- Server rendering: the `typeof window === "undefined"` branches are not modelled.
- Text:
  - lower-casing covers ASCII letters only;
  - trimming recognises a fixed set of white-space characters rather than all of Unicode.
- Select option values are strings or integers; numbers with a fraction are not modelled.
- ActionHistory.Commit: cloning is the identity and the equality test is a parameter. The URL sync passes equality of serialised forms. A falsy snapshot or a `null` value pushed to the history, which the hook treats as missing, is not modelled.
- Dashboard:
  - the selected-user modal, the team metric and the chart data are left out;
  - the tab list is a parameter.
- Dashboard.SortByScoreDesc: stability of the sort for equal scores is not stated.
- TeamMembers.HandleReorder: indices are required to be in range. The drag events of the list only produce in-range indices.
- Feedback: React's batching is not modelled. The sync effect runs once when the editor closes for the request and once when the outcome settles. After a rollback, the cache notification is taken to arrive after the editor has reopened, so the reopened draft is kept.
- Transcript.HighlightText: the greedy, non-overlapping highlighter cannot mark an overlapping current occurrence, for example "aaa" searched for "aa" with the current result at position 1. The contract states that the part marked current starts at the current position, not that one is always marked.
- SessionsTable: the intersection observer's geometry (root margin, threshold) is left out, and an intersection is an input. `fetchNextPage` is taken as a stable function, so only `hasNextPage` and `isFetchingNextPage` count as changed dependencies.
- SessionsTable.NextPageOnlyWhenGated: for the code as written, only the "only when" direction holds. SessionsTable.RetryStallsInfiniteScroll shows that the converse fails; it holds for the corrected commit (SessionsTable.FixedRequestsIffGated).
- Transcript.EstimateSizeBands: lengths and positions count the characters of the model's strings. JavaScript's `length` and `indexOf` count UTF-16 code units, so the two agree only for text without characters outside the Basic Multilingual Plane. The same holds for search result positions and for the highlighter's offsets.

## Findings

| source | as written | input that shows it | evidently intended | confidence | as-written member | corrected member |
|---|---|---|---|---|---|---|
| src/pages/Sessions/components/SessionDetailsModal/components/Transcript/Transcript.tsx:159 | the highlighter treats `currentMatchIndex` as an ordinal among the entry's matches, but the caller passes the current result's character position in the entry | text "ba a", search "a", current result at position 1: the match at position 3 is marked current | mark the match that starts at the current result's position | not executed | Transcript.HighlightMarksWrongMatch | Transcript.HighlightMarksCurrentMatch |
| src/hooks/useTheme.ts:36-41 | the persist effect stores the theme on the first render, so the system-preference handler always finds a stored theme | nothing stored, system light at load then dark: the theme stays light | follow the system preference until the user toggles | not executed | Theme.SystemSwitchIgnored | Theme.CorrectedFollowsSystemUntilToggle |
| src/pages/Sessions/components/SessionDetailsModal/components/Feedback/Feedback.tsx:66-83 | `onMutate` is passed among the per-call options of `mutate`. React Query runs only `onSuccess`, `onError` and `onSettled` from those options, so the optimistic write never happens and the rollback context is undefined. While the request runs, the sync effect resets the closed editor's draft to the saved feedback, and a failure reopens the editor on it | saved feedback "old", draft "new ", the request fails: the editor reopens showing "old" | write the new feedback optimistically, and on failure reopen the editor on the text the user typed | not executed; medium | Feedback.FailedSaveLosesDraft | Feedback.FailedSaveRollsBack |
| src/pages/Sessions/components/SessionsTable/SessionsTable.tsx:51-74 | the observer is attached only when `hasNextPage`, `isFetchingNextPage` or `fetchNextPage` changes. A failed next-page fetch shows the error view, which unmounts the sentinel. A successful retry brings the table back with the same dependencies, so no observer watches the new sentinel | more pages exist, a next-page fetch fails, and Retry succeeds: scrolling to the end requests nothing | keep infinite scroll working after a retry | not executed; medium | SessionsTable.RetryStallsInfiniteScroll | SessionsTable.FixedRequestsIffGated |
