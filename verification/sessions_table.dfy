/**
 * The sessions table's interaction logic: the sort-cycle transition, the virtual row count
 * with its trailing loader row, the infinite-scroll effect over a sequence of renders, the
 * drop handler, the choice of what the table renders, and the row and header key handlers.
 * Scrolling geometry and the intersection observer itself are left out; intersection is an
 * input.
 */
module SessionsTable {
  import opened Wrappers
  import opened SessionTypes
  import DD = DragDrop

  /** The keys `handleSortClick` accepts: all eight. */
  const SORTABLE_KEYS: seq<ColumnKey> := [Title, User, Score, Confidence, Clarity, Listening, CreatedAt, Duration]

  /** The keys whose headers are clickable. */
  const HEADER_SORTABLE_KEYS: seq<ColumnKey> := [Title, User, Score, CreatedAt]

  /** `handleSortClick`: the sort passed to `onSortChange`, or None when it is not called.
      `sort` is the optional prop; its column and direction may each be null. */
  function HandleSortClick(hasHandler: bool, sort: Option<SessionSort>, key: ColumnKey): (r: Option<SessionSort>)
    ensures !hasHandler ==> r == None
    ensures hasHandler ==> r.Some?
    ensures r.Some? ==> (r.value.column == None <==> r.value.direction == None)
    ensures r.Some? && r.value.column.Some? ==> r.value.column == Some(key)
  {
    AllKeysSortable(key);
    if !hasHandler then None
    else if key !in SORTABLE_KEYS then None
    else
      var currentColumn := if sort.Some? then sort.value.column else None;
      var currentDirection := if sort.Some? then sort.value.direction else None;
      if currentColumn == Some(key) then
        if currentDirection == Some(Asc) then Some(SessionSort(Some(key), Some(Desc)))
        else if currentDirection == Some(Desc) then Some(SessionSort(None, None))
        else Some(SessionSort(Some(key), Some(Asc)))
      else Some(SessionSort(Some(key), Some(Asc)))
  }

  /** The sort after clicking `key`, for a table given `onSortChange` whose parent feeds the
      reported sort back as the prop. */
  function Click(sort: SessionSort, key: ColumnKey): SessionSort {
    HandleSortClick(true, Some(sort), key).value
  }

  /** Repeated clicks on one column cycle ascending, descending, unsorted, ascending. */
  lemma SortCycle(key: ColumnKey)
    ensures Click(SessionSort(None, None), key) == SessionSort(Some(key), Some(Asc))
    ensures Click(SessionSort(Some(key), Some(Asc)), key) == SessionSort(Some(key), Some(Desc))
    ensures Click(SessionSort(Some(key), Some(Desc)), key) == SessionSort(None, None)
  {
  }

  /** Clicking a column other than the sorted one, or with no sort prop, sorts it ascending. */
  lemma OtherColumnSortsAscending(sort: Option<SessionSort>, key: ColumnKey)
    requires sort.None? || sort.value.column != Some(key)
    ensures HandleSortClick(true, sort, key) == Some(SessionSort(Some(key), Some(Asc)))
  {
  }

  lemma AllKeysSortable(key: ColumnKey)
    ensures key in SORTABLE_KEYS
  {
    match key
    case Title => assert SORTABLE_KEYS[0] == key;
    case User => assert SORTABLE_KEYS[1] == key;
    case Score => assert SORTABLE_KEYS[2] == key;
    case Confidence => assert SORTABLE_KEYS[3] == key;
    case Clarity => assert SORTABLE_KEYS[4] == key;
    case Listening => assert SORTABLE_KEYS[5] == key;
    case CreatedAt => assert SORTABLE_KEYS[6] == key;
    case Duration => assert SORTABLE_KEYS[7] == key;
  }

  /** A header click (or Enter/Space on a header): only the four sortable headers react. */
  function HeaderActivate(hasHandler: bool, sort: Option<SessionSort>, key: ColumnKey, eventKey: string): (r: Option<SessionSort>)
    ensures key !in HEADER_SORTABLE_KEYS ==> r == None
    ensures eventKey !in {"click", "Enter", " "} ==> r == None
    ensures key in HEADER_SORTABLE_KEYS && eventKey in {"click", "Enter", " "} ==> r == HandleSortClick(hasHandler, sort, key)
  {
    if key in HEADER_SORTABLE_KEYS && eventKey in {"click", "Enter", " "} then HandleSortClick(hasHandler, sort, key) else None
  }

  /** `rowCount`: one extra row for the loader while more pages exist. */
  function RowCount(sessionCount: nat, hasNextPage: bool): nat {
    if hasNextPage then sessionCount + 1 else sessionCount
  }

  /** `virtualRow.index > sessions.length - 1`. */
  predicate IsLoaderRow(index: nat, sessionCount: nat) {
    index > sessionCount - 1
  }

  /** Among the rendered rows, the loader row exists exactly when more pages exist, and it is
      the last one; every other row shows a session. */
  lemma LoaderRowIsLast(sessionCount: nat, hasNextPage: bool, index: nat)
    requires index < RowCount(sessionCount, hasNextPage)
    ensures IsLoaderRow(index, sessionCount) <==> hasNextPage && index == sessionCount
    ensures !IsLoaderRow(index, sessionCount) ==> index < sessionCount
  {
  }

  /** The props of one render that the infinite-scroll effect depends on, directly or through
      what the component renders. */
  datatype ScrollProps = ScrollProps(isError: bool, isLoading: bool, sessionCount: nat, hasNextPage: bool, isFetchingNextPage: bool)

  /** The sentinel `div` behind `lastElementRef` is in the document: the table itself is
      rendered (no early return) and more pages exist. */
  predicate SentinelMounted(p: ScrollProps) {
    RenderState(p.isError, p.isLoading, p.sessionCount) == TableView && p.hasNextPage
  }

  /** When an observer should be watching the sentinel: it is mounted and no page is in flight. */
  predicate ShouldObserve(p: ScrollProps) {
    SentinelMounted(p) && !p.isFetchingNextPage
  }

  /** The effect's dependency list `[hasNextPage, isFetchingNextPage, fetchNextPage]`, with
      `fetchNextPage` taken as stable. */
  predicate DepsChanged(prev: ScrollProps, next: ScrollProps) {
    prev.hasNextPage != next.hasNextPage || prev.isFetchingNextPage != next.isFetchingNextPage
  }

  /** One run of the effect body: whether it attaches an observer, reading the ref after commit. */
  predicate EffectAttaches(p: ScrollProps) {
    var lastElement := SentinelMounted(p);
    lastElement && p.hasNextPage && !p.isFetchingNextPage
  }

  /** A commit of `next` after `prev`, given whether an observer watched the mounted sentinel.
      When the dependencies changed, the cleanup disconnects and the effect runs again; when
      they did not, the old observer survives but watches the node it was given, which is the
      mounted sentinel only if the sentinel stayed mounted throughout. */
  function Commit(observing: bool, prev: ScrollProps, next: ScrollProps): bool {
    if DepsChanged(prev, next) then EffectAttaches(next)
    else observing && SentinelMounted(prev) && SentinelMounted(next)
  }

  /** Whether an observer watches the mounted sentinel after a sequence of renders, the first
      being the mount (where the effect always runs). */
  function Observing(renders: seq<ScrollProps>): bool
    requires |renders| > 0
    decreases |renders|
  {
    if |renders| == 1 then EffectAttaches(renders[0])
    else Commit(Observing(renders[..|renders| - 1]), renders[|renders| - 2], renders[|renders| - 1])
  }

  /** An intersection reported to an observer requests the next page. */
  predicate RequestsNextPage(observing: bool, intersecting: bool) {
    observing && intersecting
  }

  /** The next page is requested only while the table shows its sentinel, a next page exists
      and none is being fetched, whatever sequence of renders led there. */
  lemma {:induction false} NextPageOnlyWhenGated(renders: seq<ScrollProps>, intersecting: bool)
    requires |renders| > 0
    ensures RequestsNextPage(Observing(renders), intersecting) ==> ShouldObserve(renders[|renders| - 1])
    decreases |renders|
  {
    if |renders| > 1 {
      var init := renders[..|renders| - 1];
      NextPageOnlyWhenGated(init, true);
      assert init[|init| - 1] == renders[|renders| - 2];
    }
  }

  /** A change of the dependencies attaches an observer exactly when it should. */
  lemma DepsChangeAttaches(renders: seq<ScrollProps>)
    requires |renders| > 1 && DepsChanged(renders[|renders| - 2], renders[|renders| - 1])
    ensures Observing(renders) <==> ShouldObserve(renders[|renders| - 1])
  {
  }

  /** The renders around a failed next-page fetch and a successful retry: the table with more
      pages, the fetch in flight, the error view, and the table again. */
  function RetryRenders(): seq<ScrollProps> {
    [ ScrollProps(false, false, 20, true, false),
      ScrollProps(false, false, 20, true, true),
      ScrollProps(true, false, 20, true, false),
      ScrollProps(false, false, 20, true, false) ]
  }

  /** As written, infinite scroll stalls after the retry: the error view unmounted the
      sentinel, the remounted sentinel comes back with the dependencies unchanged, and so no
      observer watches it and no scroll requests the next page. */
  lemma RetryStallsInfiniteScroll(intersecting: bool)
    ensures ShouldObserve(RetryRenders()[3])
    ensures !RequestsNextPage(Observing(RetryRenders()), intersecting)
  {
    var rs := RetryRenders();
    assert rs[..3][..2][..1] == rs[..1];
    assert Observing(rs[..1]);
    assert !Observing(rs[..2]) by { assert rs[..2][..1] == rs[..1]; }
    assert !Observing(rs[..3]) by { assert rs[..3][..2] == rs[..2]; }
    assert !Observing(rs) by { assert rs[..4][..3] == rs[..3]; assert rs[..4] == rs; }
  }

  /** The corrected commit: the effect also runs again when the sentinel node is mounted or
      unmounted (as with a callback ref, or the node among the dependencies). */
  function CommitFixed(observing: bool, prev: ScrollProps, next: ScrollProps): bool {
    if DepsChanged(prev, next) || SentinelMounted(prev) != SentinelMounted(next) then EffectAttaches(next)
    else observing
  }

  function ObservingFixed(renders: seq<ScrollProps>): bool
    requires |renders| > 0
    decreases |renders|
  {
    if |renders| == 1 then EffectAttaches(renders[0])
    else CommitFixed(ObservingFixed(renders[..|renders| - 1]), renders[|renders| - 2], renders[|renders| - 1])
  }

  /** With the corrected commit, after any sequence of renders an intersection requests the
      next page exactly when the sentinel is shown, a next page exists and none is in flight. */
  lemma {:induction false} FixedRequestsIffGated(renders: seq<ScrollProps>, intersecting: bool)
    requires |renders| > 0
    ensures RequestsNextPage(ObservingFixed(renders), intersecting) <==> ShouldObserve(renders[|renders| - 1]) && intersecting
    decreases |renders|
  {
    if |renders| > 1 {
      var init := renders[..|renders| - 1];
      FixedRequestsIffGated(init, true);
      assert init[|init| - 1] == renders[|renders| - 2];
    }
  }

  /** The corrected commit resumes infinite scroll after the retry. */
  lemma RetryResumesWhenFixed()
    ensures RequestsNextPage(ObservingFixed(RetryRenders()), true)
  {
    FixedRequestsIffGated(RetryRenders(), true);
  }

  /** `handleDrop` of this table: without drag enabled or without `onReorder` it returns at
      once, leaving the drag state as it was. */
  function Drop(enableDrag: bool, hasOnReorder: bool, st: DD.DragState, target: int): (r: DD.DropResult)
    ensures !(enableDrag && hasOnReorder) ==> r == DD.DropResult(st, None)
    ensures enableDrag && hasOnReorder ==> r.state == DD.Idle
    ensures r.reorder.Some? <==> enableDrag && hasOnReorder && st.source.Some? && st.source.value != target
    ensures r.reorder.Some? ==> r.reorder.value == (st.source.value, target)
  {
    if !enableDrag || !hasOnReorder then DD.DropResult(st, None) else DD.Settle(st, target)
  }

  /** A whole gesture from an idle table — start on one row, hover and drop on another —
      calls `onReorder` with the two rows and leaves the table idle. */
  lemma DragGestureReorders(hasOnReorder: bool, source: int, target: int)
    requires source != target
    ensures var st := DD.Over(true, DD.Start(true, DD.Idle, source), target);
            && st == DD.DragState(Some(source), Some(target))
            && Drop(true, hasOnReorder, st, target) ==
               DD.DropResult(if hasOnReorder then DD.Idle else st, if hasOnReorder then Some((source, target)) else None)
  {
  }

  /** With dragging disabled no handler changes the state before a drop, and the drop never
      calls `onReorder`. */
  lemma DisabledDragIsInert(hasOnReorder: bool, st: DD.DragState, i: int, j: int)
    ensures DD.Start(false, st, i) == st && DD.Over(false, st, i) == st
    ensures Drop(false, hasOnReorder, st, j) == DD.DropResult(st, None)
  {
  }

  datatype View = ErrorView | SkeletonView | EmptyView | TableView

  /** The early returns of the component, in order. */
  function RenderState(isError: bool, isLoading: bool, sessionCount: nat): (r: View)
    ensures r == ErrorView <==> isError
    ensures r == SkeletonView <==> !isError && isLoading && sessionCount == 0
    ensures r == EmptyView <==> !isError && !isLoading && sessionCount == 0
    ensures r == TableView <==> !isError && sessionCount > 0
  {
    if isError then ErrorView
    else if isLoading && sessionCount == 0 then SkeletonView
    else if !isLoading && sessionCount == 0 then EmptyView
    else TableView
  }

  /** The row's key handler `event.key === "Enter" || (event.key === " " && onRowClick?.(session))`:
      whether `onRowClick` runs. Enter short-circuits before the call. */
  function RowKeyCallsClick(eventKey: string, hasOnRowClick: bool): (r: bool)
    ensures r <==> eventKey == " " && hasOnRowClick
    ensures eventKey == "Enter" ==> !r
  {
    if eventKey == "Enter" then false else eventKey == " " && hasOnRowClick
  }
}
