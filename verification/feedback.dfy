/**
 * The feedback panel of the session details modal: an editor with a draft, and a save that
 * trims the draft, skips the request when nothing changed, and otherwise sends a one-session
 * bulk update with an optimistic write to the cached session details. A failure restores the
 * snapshot taken before the optimistic write and reopens the editor; either outcome marks the
 * details stale. The save is modelled twice: as written, where the optimistic write never
 * runs, and corrected, where it does. The details cache is a map from session id to details; React Query's
 * cancellation and refetching are left out, invalidation is a recorded event.
 */
module Feedback {
  import opened Wrappers
  import opened SessionTypes
  import Text
  import SD = SessionsData
  import Alerts

  datatype Editor = Editor(isEditing: bool, draft: string)

  /** The cached session details, by session id. */
  type Cache = map<string, SessionDetails>

  const SUCCESS_MESSAGE: string := "Feedback updated successfully."
  const ERROR_MESSAGE: string := "Failed to update feedback. Please try again."

  /** `feedback ?? ""`. */
  function Original(feedback: Option<string>): (r: string)
    ensures feedback.Some? ==> r == feedback.value
    ensures feedback.None? ==> r == []
  {
    feedback.GetOr("")
  }

  /** The first render: not editing, the draft holds the current feedback. */
  function Initial(feedback: Option<string>): (r: Editor)
    ensures !r.isEditing && r.draft == Original(feedback)
  {
    Editor(false, Original(feedback))
  }

  /** The sync effect: outside edit mode the draft follows the feedback prop. */
  function Sync(e: Editor, feedback: Option<string>): (r: Editor)
    ensures r.isEditing == e.isEditing
    ensures !e.isEditing ==> r.draft == Original(feedback)
    ensures e.isEditing ==> r == e
  {
    if e.isEditing then e else e.(draft := Original(feedback))
  }

  /** `handleEdit`: enter edit mode with the current feedback as the draft. */
  function Edit(feedback: Option<string>): (r: Editor)
    ensures r.isEditing && r.draft == Original(feedback)
  {
    Editor(true, Original(feedback))
  }

  /** `handleCancel` on editor `e`: leave edit mode, discarding the draft. */
  function Cancel(e: Editor, feedback: Option<string>): (r: Editor)
    ensures !r.isEditing && r.draft == Original(feedback)
  {
    e.(isEditing := false, draft := Original(feedback))
  }

  /** Whatever was typed, cancelling ends in the same editor: the one the sync effect would
      produce once edit mode is left, and which it then leaves alone. */
  lemma CancelDiscardsDraft(e: Editor, typed: string, feedback: Option<string>)
    ensures Cancel(e, feedback) == Cancel(e.(draft := typed), feedback)
    ensures Cancel(e, feedback) == Sync(e.(isEditing := false), feedback)
    ensures Sync(Cancel(e, feedback), feedback) == Cancel(e, feedback)
  {
  }

  /** What `handleSave` starts: the editor closes, and a request goes out only when the
      trimmed draft differs from the current feedback. */
  datatype SaveStart = SaveStart(editor: Editor, request: Option<BulkUpdatePayload>)

  function Save(e: Editor, sessionId: string, feedback: Option<string>): (r: SaveStart)
    ensures !r.editor.isEditing && r.editor.draft == e.draft
    ensures r.request.None? <==> Text.Trim(e.draft) == Original(feedback)
    ensures r.request.Some? ==> r.request.value.sessionIds == [sessionId]
    ensures r.request.Some? ==> r.request.value.feedback == Text.Trim(e.draft)
  {
    var trimmed := Text.Trim(e.draft);
    var closed := e.(isEditing := false);
    if trimmed == Original(feedback) then SaveStart(closed, None)
    else SaveStart(closed, Some(BulkUpdatePayload([sessionId], trimmed)))
  }

  /** A saved request never carries leading or trailing white space. */
  lemma SavedFeedbackIsTrimmed(e: Editor, sessionId: string, feedback: Option<string>)
    requires Save(e, sessionId, feedback).request.Some?
    ensures var f := Save(e, sessionId, feedback).request.value.feedback;
            f == [] || (!Text.IsSpace(f[0]) && !Text.IsSpace(f[|f| - 1]))
  {
  }

  /** `onMutate`: the snapshot of the cached entry, and the cache with only that entry's
      feedback replaced; an absent entry stays absent. */
  function OnMutate(cache: Cache, sessionId: string, trimmed: string): (r: (Cache, Option<SessionDetails>))
    ensures r.1.Some? <==> sessionId in cache
    ensures r.1.Some? ==> r.1.value == cache[sessionId]
    ensures r.0.Keys == cache.Keys
    ensures forall k :: k in cache && k != sessionId ==> r.0[k] == cache[k]
    ensures sessionId in cache ==>
              r.0[sessionId].feedback == Some(trimmed)
              && r.0[sessionId] == cache[sessionId].(feedback := Some(trimmed))
  {
    if sessionId in cache then
      var prev := cache[sessionId];
      (cache[sessionId := prev.(feedback := Some(trimmed))], Some(prev))
    else (cache, None)
  }

  datatype Outcome = Succeeded | Failed

  /** The state after the request settles: the cache, the editor, the alert shown and the
      invalidations recorded, in the order the handlers run. */
  datatype Settled = Settled(cache: Cache, editor: Editor, alert: (Alerts.AlertType, string), invalidations: seq<SD.Invalidation>)

  /** The mutation's settle handlers: the hook's own success handler, then `onSuccess` or
      `onError` (which restores a truthy snapshot and reopens the editor), then `onSettled`. */
  function Settle(cache: Cache, e: Editor, sessionId: string, previous: Option<SessionDetails>, outcome: Outcome): (r: Settled)
    ensures outcome == Succeeded ==> r.cache == cache && r.editor == e && r.alert == (Alerts.Success, SUCCESS_MESSAGE)
    ensures outcome == Failed ==> r.editor == e.(isEditing := true) && r.alert == (Alerts.Error, ERROR_MESSAGE)
    ensures outcome == Failed && previous.Some? ==> r.cache == cache[sessionId := previous.value]
    ensures outcome == Failed && previous.None? ==> r.cache == cache
    ensures SD.MarkedStale(r.invalidations, SD.DetailsKey(sessionId))
    ensures forall key :: SD.MarkedStale(r.invalidations, key) <==>
              key == SD.DetailsKey(sessionId) || (outcome == Succeeded && key.SessionsKey?)
  {
    var invs := SD.BulkUpdateInvalidations(outcome == Succeeded) + [SD.InvalidateDetails(sessionId)];
    assert SD.InvalidateDetails(sessionId) in invs;
    assert forall key :: SD.MarkedStale(invs, key) <==>
             key == SD.DetailsKey(sessionId) || (outcome == Succeeded && key.SessionsKey?) by {
      forall key
        ensures SD.MarkedStale(invs, key) <==>
                key == SD.DetailsKey(sessionId) || (outcome == Succeeded && key.SessionsKey?)
      {
        if outcome == Succeeded && key.SessionsKey? {
          assert SD.InvalidateSessions in invs;
        }
      }
    }
    match outcome
    case Succeeded => Settled(cache, e, (Alerts.Success, SUCCESS_MESSAGE), invs)
    case Failed =>
      var restored := if previous.Some? then cache[sessionId := previous.value] else cache;
      Settled(restored, e.(isEditing := true), (Alerts.Error, ERROR_MESSAGE), invs)
  }

  /** The feedback prop as the modal passes it: the cached details' feedback, when the details
      are loaded. */
  function Shown(cache: Cache, sessionId: string): Option<string> {
    if sessionId in cache then cache[sessionId].feedback else None
  }

  /** The whole save, with the feedback prop read from the cache. Closing the editor lets the
      sync effect reset the draft to the prop while the request is in flight. With `optimistic`
      the optimistic write runs first and the prop shows the new feedback; without it the cache
      is untouched until the response and the error handler has no snapshot. None means no
      request was sent. */
  function Flow(e: Editor, cache: Cache, sessionId: string, outcome: Outcome, optimistic: bool): (Editor, Option<Settled>) {
    var start := Save(e, sessionId, Shown(cache, sessionId));
    match start.request
    case None => (Sync(start.editor, Shown(cache, sessionId)), None)
    case Some(payload) =>
      var (during, previous) := if optimistic then OnMutate(cache, sessionId, payload.feedback) else (cache, None);
      var closed := Sync(start.editor, Shown(during, sessionId));
      (closed, Some(Settle(during, closed, sessionId, previous, outcome)))
  }

  /** Corrected: the optimistic write runs before the request, as the `onMutate` handler means. */
  function SaveFlow(e: Editor, cache: Cache, sessionId: string, outcome: Outcome): (Editor, Option<Settled>) {
    Flow(e, cache, sessionId, outcome, true)
  }

  /** As written: `onMutate` sits in the options of the `mutate` call, where React Query only
      runs `onSuccess`, `onError` and `onSettled`, so it never runs. */
  function SaveFlowAsWritten(e: Editor, cache: Cache, sessionId: string, outcome: Outcome): (Editor, Option<Settled>) {
    Flow(e, cache, sessionId, outcome, false)
  }

  /** Saving an unchanged draft sends nothing and leaves the editor as after a cancel. */
  lemma UnchangedSaveSendsNothing(e: Editor, cache: Cache, sessionId: string, outcome: Outcome)
    requires Text.Trim(e.draft) == Original(Shown(cache, sessionId))
    ensures SaveFlow(e, cache, sessionId, outcome) == (Cancel(e, Shown(cache, sessionId)), None)
    ensures SaveFlowAsWritten(e, cache, sessionId, outcome) == (Cancel(e, Shown(cache, sessionId)), None)
  {
  }

  /** Corrected: a failed save leaves the whole cache exactly as it was before the optimistic
      write, and reopens the editor on the trimmed draft when the details were cached (the prop
      showed the optimistic value while the request was in flight). */
  lemma FailedSaveRollsBack(e: Editor, cache: Cache, sessionId: string)
    requires Text.Trim(e.draft) != Original(Shown(cache, sessionId))
    ensures var (_, settled) := SaveFlow(e, cache, sessionId, Failed);
            && settled.Some?
            && settled.value.cache == cache
            && settled.value.editor.isEditing
            && (sessionId in cache ==> settled.value.editor.draft == Text.Trim(e.draft))
            && (sessionId !in cache ==> settled.value.editor.draft == [])
            && settled.value.alert == (Alerts.Error, ERROR_MESSAGE)
  {
    var trimmed := Text.Trim(e.draft);
    var (optimistic, previous) := OnMutate(cache, sessionId, trimmed);
    if sessionId in cache {
      assert optimistic[sessionId := cache[sessionId]] == cache;
    }
  }

  /** As written: no request ever touches the cache before the response, and a failed save
      reopens the editor on the saved feedback, not on what the user typed. */
  lemma FailedSaveLosesDraft(e: Editor, cache: Cache, sessionId: string, outcome: Outcome)
    requires Text.Trim(e.draft) != Original(Shown(cache, sessionId))
    ensures var (closed, settled) := SaveFlowAsWritten(e, cache, sessionId, outcome);
            && closed == Cancel(e, Shown(cache, sessionId))
            && settled.Some?
            && settled.value.cache == cache
            && (outcome == Failed ==> settled.value.editor == Edit(Shown(cache, sessionId)))
  {
  }

  /** The case that shows it: saved feedback "old", the draft "new " and a failing request.
      As written the editor reopens on "old"; corrected it reopens on "new". */
  lemma DraftLostExample(d: SessionDetails)
    requires d.feedback == Some("old")
    ensures SaveFlowAsWritten(Editor(true, "new "), map[d.id := d], d.id, Failed).1.value.editor == Editor(true, "old")
    ensures SaveFlow(Editor(true, "new "), map[d.id := d], d.id, Failed).1.value.editor == Editor(true, "new")
  {
    TrimExample();
    FailedSaveRollsBack(Editor(true, "new "), map[d.id := d], d.id);
  }

  lemma TrimExample()
    ensures Text.Trim("new ") == "new"
  {
    var s := "new ";
    assert !Text.IsSpace(s[0]) && Text.IsSpace(s[3]) && !Text.IsSpace(s[2]);
    assert Text.SkipSpaces(s, 0) == 0;
    assert Text.SkipSpacesBack(s, 0, 4) == 3 by {
      assert Text.SkipSpacesBack(s, 0, 3) == 3;
    }
    assert s[0..3] == "new";
  }

  /** Corrected: a successful save leaves the new feedback on a cached entry, changes no other
      entry, shows the success alert and marks that session's details and every sessions list
      stale. */
  lemma SuccessfulSaveWritesThrough(e: Editor, cache: Cache, sessionId: string)
    requires Text.Trim(e.draft) != Original(Shown(cache, sessionId))
    ensures var (_, settled) := SaveFlow(e, cache, sessionId, Succeeded);
            && settled.Some?
            && !settled.value.editor.isEditing
            && settled.value.cache.Keys == cache.Keys
            && (sessionId in cache ==> settled.value.cache[sessionId].feedback == Some(Text.Trim(e.draft)))
            && (forall k :: k in cache && k != sessionId ==> settled.value.cache[k] == cache[k])
            && settled.value.alert == (Alerts.Success, SUCCESS_MESSAGE)
            && SD.MarkedStale(settled.value.invalidations, SD.DetailsKey(sessionId))
            && (forall pageSize :: SD.MarkedStale(settled.value.invalidations, SD.SessionsKey(pageSize)))
  {
  }
}
