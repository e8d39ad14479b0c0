/**
 * The sessions data layer: normalising a raw page response into a page with an optional
 * next-page number, flattening the fetched pages into one list, and the cache keys a
 * successful bulk update invalidates. The network and the query cache are left out;
 * invalidation is a recorded event.
 */
module SessionsData {
  import opened Wrappers
  import opened SessionTypes

  const DEFAULT_PAGE_SIZE: int := 50

  /** `Math.ceil(a / b)` for a non-zero divisor. */
  function CeilDiv(a: int, b: int): (r: int)
    requires b != 0
    ensures b > 0 ==> (r - 1) * b < a <= r * b
    ensures b < 0 ==> r * b <= a < (r - 1) * b
  {
    if b > 0 then -((-a) / b) else -(a / (-b))
  }

  /** `extractSessions`: missing fields default to page 1, the caller's page size and the
      returned session count; there is a next page when the current page is below the page
      count, or, failing that, when the page came back full. */
  function ExtractSessions(payload: Option<SessionsApiResponse>, fallbackPageSize: int): (r: SessionsPage)
    ensures payload.None? ==> r == SessionsPage([], None)
    ensures payload.Some? ==>
              var sessions := payload.value.sessions.GetOr([]);
              var page := payload.value.page.GetOr(1);
              && r.sessions == sessions
              && (r.nextPage == None || r.nextPage == Some(page + 1))
  {
    match payload
    case None => SessionsPage([], None)
    case Some(p) =>
      var sessions := p.sessions.GetOr([]);
      var currentPage := p.page.GetOr(1);
      var effectivePageSize := p.pageSize.GetOr(fallbackPageSize);
      var total := p.total.GetOr(|sessions|);
      var totalPages := if effectivePageSize != 0 then Some(CeilDiv(total, effectivePageSize)) else None;
      var nextPage := if totalPages.Some? && currentPage < totalPages.value then Some(currentPage + 1) else None;
      var nextPage' := if nextPage == None && |sessions| == effectivePageSize then Some(currentPage + 1) else nextPage;
      SessionsPage(sessions, nextPage')
  }

  /** With a positive page size, a next page is announced exactly when the rows before the
      end of this page fall short of the total, or the page is full. A page size of zero has
      no page count, so only a full (empty) page announces one. */
  lemma NextPageIff(p: SessionsApiResponse, fallbackPageSize: int)
    ensures var r := ExtractSessions(Some(p), fallbackPageSize);
            var sessions := p.sessions.GetOr([]);
            var page := p.page.GetOr(1);
            var size := p.pageSize.GetOr(fallbackPageSize);
            var total := p.total.GetOr(|sessions|);
            && (size > 0 ==> (r.nextPage.Some? <==> page * size < total || |sessions| == size))
            && (size == 0 ==> (r.nextPage.Some? <==> sessions == []))
  {
    var sessions := p.sessions.GetOr([]);
    var page := p.page.GetOr(1);
    var size := p.pageSize.GetOr(fallbackPageSize);
    var total := p.total.GetOr(|sessions|);
    if size > 0 {
      var c := CeilDiv(total, size);
      assert page < c <==> page * size < total by {
        if page < c {
          assert page <= c - 1;
          assert page * size <= (c - 1) * size;
        } else {
          assert page * size >= c * size;
        }
      }
    }
  }

  /** The worked example: 120 sessions in pages of 50. */
  lemma PagingExample(s: Session)
    ensures ExtractSessions(Some(SessionsApiResponse(Some(1), Some(50), Some(seq(50, _ => s)), Some(120))), 50).nextPage == Some(2)
    ensures ExtractSessions(Some(SessionsApiResponse(Some(2), Some(50), Some(seq(50, _ => s)), Some(120))), 50).nextPage == Some(3)
    ensures ExtractSessions(Some(SessionsApiResponse(Some(3), Some(50), Some(seq(20, _ => s)), Some(120))), 50).nextPage == None
  {
  }

  /** `pages.flatMap(page => page.sessions)`. */
  function Flatten(pages: seq<SessionsPage>): (r: seq<Session>)
    ensures |r| == TotalCount(pages)
  {
    if pages == [] then [] else Flatten(pages[..|pages| - 1]) + pages[|pages| - 1].sessions
  }

  function TotalCount(pages: seq<SessionsPage>): nat {
    if pages == [] then 0 else TotalCount(pages[..|pages| - 1]) + |pages[|pages| - 1].sessions|
  }

  /** Fetching one more page appends its sessions and leaves the earlier ones in place. */
  lemma FlattenAppend(pages: seq<SessionsPage>, p: SessionsPage)
    ensures Flatten(pages + [p]) == Flatten(pages) + p.sessions
  {
    assert (pages + [p])[..|pages|] == pages;
  }

  /** The flattened list starts with each page's predecessors and places page `k`'s
      sessions right after them, in server order. */
  lemma {:induction false} FlattenPlacesPage(pages: seq<SessionsPage>, k: nat, i: nat)
    requires k < |pages| && i < |pages[k].sessions|
    ensures TotalCount(pages[..k]) + i < |Flatten(pages)|
    ensures Flatten(pages)[TotalCount(pages[..k]) + i] == pages[k].sessions[i]
    decreases |pages|
  {
    var last := |pages| - 1;
    assert pages[..last][..k] == pages[..k] by { if k < last { } }
    if k < last {
      FlattenPlacesPage(pages[..last], k, i);
    } else {
      assert pages[..k] == pages[..last];
    }
  }

  /** React Query's `hasNextPage`: the last fetched page names a next page. */
  predicate HasNextPage(pages: seq<SessionsPage>) {
    |pages| > 0 && pages[|pages| - 1].nextPage.Some?
  }

  /** Cache keys: the infinite sessions list per page size, and one entry per session details. */
  datatype QueryKey = SessionsKey(pageSize: int) | DetailsKey(sessionId: string)

  /** An invalidation request: a key prefix. */
  datatype Invalidation = InvalidateSessions | InvalidateDetails(sessionId: string)

  predicate Invalidates(inv: Invalidation, key: QueryKey) {
    match inv
    case InvalidateSessions => key.SessionsKey?
    case InvalidateDetails(id) => key == DetailsKey(id)
  }

  /** The bulk-update mutation's success handler; a failed request invalidates nothing. */
  function BulkUpdateInvalidations(succeeded: bool): seq<Invalidation> {
    if succeeded then [InvalidateSessions] else []
  }

  /** Some recorded invalidation covers `key`. */
  predicate MarkedStale(invs: seq<Invalidation>, key: QueryKey) {
    exists inv :: inv in invs && Invalidates(inv, key)
  }

  /** A successful bulk update marks every cached sessions list stale, whatever its page
      size, and no session details; a failed one marks nothing. */
  lemma BulkUpdateMarksSessionLists(succeeded: bool, key: QueryKey)
    ensures MarkedStale(BulkUpdateInvalidations(succeeded), key) <==> succeeded && key.SessionsKey?
  {
    if succeeded && key.SessionsKey? {
      assert InvalidateSessions in BulkUpdateInvalidations(succeeded);
    }
  }
}
