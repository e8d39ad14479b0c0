/**
 * The undo/redo history behind `useActionHistory`: a bounded list of snapshots with a
 * cursor, a debounced commit slot, and the Ctrl/Cmd+Z keyboard binding.
 *
 * Snapshots are values, so the deep clones the hook takes on push and on apply are the
 * identity here. The debounce timer is the explicit `Flush` event. The equality used to
 * skip a commit is the parameter `same`.
 */
module ActionHistory {
  import opened Wrappers
  import Text

  const HISTORY_LIMIT_DEFAULT: int := 5

  /** `entries` is `historyRef`, `index` is `historyIndexRef`, `pending` is `pendingValueRef`. */
  datatype History<T> = History(entries: seq<T>, index: int, pending: Option<T>)

  /** The shapes the operations below can produce: the cursor is inside the list, or the
      list is empty (a limit of zero or less empties it) and the cursor is -1. */
  predicate Valid<T>(h: History<T>) {
    if |h.entries| == 0 then h.index == -1 else 0 <= h.index < |h.entries|
  }

  /** The history as the hook creates it: the initial value alone, cursor on it. */
  function Init<T>(initial: T): History<T> {
    History([initial], 0, None)
  }

  /** Everything up to and including the cursor: what a commit builds on. */
  function Kept<T>(h: History<T>): seq<T>
    requires Valid(h)
  {
    h.entries[..h.index + 1]
  }

  /** The commit is skipped when the value equals the entry under the cursor. */
  predicate SkipsCommit<T>(h: History<T>, value: T, same: (T, T) -> bool)
    requires Valid(h)
  {
    |Kept(h)| > 0 && same(Kept(h)[|Kept(h)| - 1], value)
  }

  function Min(a: int, b: int): int { if a < b then a else b }
  function Max(a: int, b: int): int { if a < b then b else a }

  /** `addToHistory`: drop the redo tail, append the value unless it equals the entry under
      the cursor, keep only the newest `limit` entries, and point the cursor at the last. */
  function Commit<T>(h: History<T>, value: T, limit: int, same: (T, T) -> bool): (r: History<T>)
    requires Valid(h)
    ensures Valid(r)
    ensures r.pending == h.pending
    ensures SkipsCommit(h, value, same) ==> r == h
    ensures !SkipsCommit(h, value, same) ==>
              && |r.entries| == Min(|Kept(h)| + 1, Max(limit, 0))
              && r.index == |r.entries| - 1
              && (forall i :: 0 <= i < |r.entries| ==>
                    r.entries[i] == (Kept(h) + [value])[|Kept(h)| + 1 - |r.entries| + i])
    ensures !SkipsCommit(h, value, same) && limit >= 1 ==> r.entries[r.index] == value
  {
    var kept := h.entries[..h.index + 1];
    if |kept| > 0 && same(kept[|kept| - 1], value) then h
    else
      var grown := kept + [value];
      var trimmed := if |grown| > limit then (if limit <= 0 then [] else grown[|grown| - limit..]) else grown;
      History(trimmed, |trimmed| - 1, h.pending)
  }

  /** `applySnapshot`: move the cursor and hand back the snapshot under it. */
  function ApplySnapshot<T>(h: History<T>, index: int): (History<T>, Option<T>)
  {
    if 0 <= index < |h.entries| then (h.(index := index), Some(h.entries[index])) else (h, None)
  }

  /** `undo`: nothing at the oldest entry, otherwise one step back. */
  function Undo<T>(h: History<T>): (r: (History<T>, Option<T>))
    requires Valid(h)
    ensures Valid(r.0)
    ensures r.0.entries == h.entries && r.0.pending == h.pending
    ensures h.index <= 0 ==> r == (h, None)
    ensures h.index > 0 ==> r.0.index == h.index - 1 && r.1 == Some(h.entries[h.index - 1])
  {
    if h.index <= 0 then (h, None) else ApplySnapshot(h, h.index - 1)
  }

  /** `redo`: nothing at the newest entry, otherwise one step forward. */
  function Redo<T>(h: History<T>): (r: (History<T>, Option<T>))
    requires Valid(h)
    ensures Valid(r.0)
    ensures r.0.entries == h.entries && r.0.pending == h.pending
    ensures h.index >= |h.entries| - 1 ==> r == (h, None)
    ensures h.index < |h.entries| - 1 ==> r.0.index == h.index + 1 && r.1 == Some(h.entries[h.index + 1])
  {
    if h.index >= |h.entries| - 1 then (h, None) else ApplySnapshot(h, h.index + 1)
  }

  /** `pushToHistory`: remember the latest value; the timer is restarted, nothing is committed yet. */
  function Push<T>(h: History<T>, value: T): History<T> {
    h.(pending := Some(value))
  }

  /** The debounce timer firing: commit the pending value, if any, and clear the slot. */
  function Flush<T>(h: History<T>, limit: int, same: (T, T) -> bool): (r: History<T>)
    requires Valid(h)
    ensures Valid(r) && r.pending == None
  {
    match h.pending
    case Some(v) => Commit(h.(pending := None), v, limit, same)
    case None => h
  }

  /** One event the history reacts to. */
  datatype Op<T> = PushOp(value: T) | FlushOp | UndoOp | RedoOp

  function Step<T>(h: History<T>, op: Op<T>, limit: int, same: (T, T) -> bool): (r: History<T>)
    requires Valid(h)
    ensures Valid(r)
  {
    match op
    case PushOp(v) => Push(h, v)
    case FlushOp => Flush(h, limit, same)
    case UndoOp => Undo(h).0
    case RedoOp => Redo(h).0
  }

  function Run<T>(h: History<T>, ops: seq<Op<T>>, limit: int, same: (T, T) -> bool): History<T>
    requires Valid(h)
    decreases |ops|
  {
    if ops == [] then h else Run(Step(h, ops[0], limit, same), ops[1..], limit, same)
  }

  /** The invariant the hook keeps for a positive limit: at least one entry, at most `limit`
      (or one, the initial entry, when the limit is one), and the cursor inside the list. */
  predicate Bounded<T>(h: History<T>, limit: int) {
    1 <= |h.entries| <= Max(1, limit) && 0 <= h.index < |h.entries|
  }

  lemma {:induction false} RunKeepsBounds<T>(h: History<T>, ops: seq<Op<T>>, limit: int, same: (T, T) -> bool)
    requires limit >= 1 && Bounded(h, limit)
    ensures Valid(h) && Bounded(Run(h, ops, limit, same), limit)
    decreases |ops|
  {
    if ops != [] {
      var h' := Step(h, ops[0], limit, same);
      assert Bounded(h', limit);
      RunKeepsBounds(h', ops[1..], limit, same);
    }
  }

  /** A fresh history cannot undo or redo: both return nothing and change nothing. */
  lemma FreshHistoryHasNothingToUndo<T>(initial: T)
    ensures Bounded(Init(initial), 1)
    ensures Undo(Init(initial)) == (Init(initial), None)
    ensures Redo(Init(initial)) == (Init(initial), None)
  {
  }

  /** A successful undo followed by redo returns to the same cursor and value. */
  lemma RedoUndoesUndo<T>(h: History<T>)
    requires Valid(h) && h.index > 0
    ensures Valid(Undo(h).0)
    ensures Redo(Undo(h).0) == (h, Some(h.entries[h.index]))
  {
  }

  /** A successful commit discards the redo tail: redo has nothing to return afterwards. */
  lemma CommitClearsRedo<T>(h: History<T>, value: T, limit: int, same: (T, T) -> bool)
    requires Valid(h) && !SkipsCommit(h, value, same)
    ensures Redo(Commit(h, value, limit, same)).1 == None
  {
  }

  /** With a limit of zero or less every commit empties the history (the JavaScript `slice`
      with a start at or past the end). */
  lemma NonPositiveLimitEmptiesHistory<T>(h: History<T>, value: T, limit: int, same: (T, T) -> bool)
    requires Valid(h) && !SkipsCommit(h, value, same) && limit <= 0
    ensures Commit(h, value, limit, same).entries == [] && Commit(h, value, limit, same).index == -1
  {
  }

  /** Several pushes before the timer fires collapse to one commit of the last value. */
  lemma {:induction false} PushesCollapse<T>(h: History<T>, values: seq<T>, limit: int, same: (T, T) -> bool)
    requires Valid(h) && |values| > 0
    ensures Valid(PushAll(h, values))
    ensures Flush(PushAll(h, values), limit, same) == Commit(h.(pending := None), values[|values| - 1], limit, same)
    decreases |values|
  {
    if |values| > 1 {
      PushesCollapse(Push(h, values[0]), values[1..], limit, same);
    }
  }

  function PushAll<T>(h: History<T>, values: seq<T>): (r: History<T>)
    ensures r.entries == h.entries && r.index == h.index
    ensures values != [] ==> r.pending == Some(values[|values| - 1])
    ensures values == [] ==> r == h
    decreases |values|
  {
    if values == [] then h else PushAll(Push(h, values[0]), values[1..])
  }

  function UndoTimes<T>(h: History<T>, n: nat): History<T>
    requires Valid(h)
    decreases n
  {
    if n == 0 then h else UndoTimes(Undo(h).0, n - 1)
  }

  /** Undoing `index` times walks back to the oldest retained entry; one more undo is a no-op. */
  lemma {:induction false} UndoReachesOldest<T>(h: History<T>, n: nat)
    requires Valid(h) && n <= h.index
    ensures Valid(UndoTimes(h, n))
    ensures UndoTimes(h, n) == h.(index := h.index - n)
    ensures n == h.index ==> Undo(UndoTimes(h, n)).1 == None
    decreases n
  {
    if n > 0 {
      UndoReachesOldest(Undo(h).0, n - 1);
    }
  }

  /** A keyboard event as the window listener sees it. */
  datatype KeyEvent = KeyEvent(key: string, metaKey: bool, ctrlKey: bool, shiftKey: bool)

  datatype Command = NoCommand | UndoCommand | RedoCommand

  /** The window key handler: Ctrl or Cmd with `z`/`Z` undoes, and redoes with Shift. */
  function ShortcutCommand(enabled: bool, e: KeyEvent): Command {
    if !enabled || !(e.metaKey || e.ctrlKey) then NoCommand
    else if Text.Lower(e.key) != "z" then NoCommand
    else if e.shiftKey then RedoCommand
    else UndoCommand
  }

  lemma {:induction false} ShortcutCommandIff(enabled: bool, e: KeyEvent)
    ensures ShortcutCommand(enabled, e) == UndoCommand <==>
              enabled && (e.metaKey || e.ctrlKey) && e.key in {"z", "Z"} && !e.shiftKey
    ensures ShortcutCommand(enabled, e) == RedoCommand <==>
              enabled && (e.metaKey || e.ctrlKey) && e.key in {"z", "Z"} && e.shiftKey
  {
    var low := Text.Lower(e.key);
    if low == "z" {
      assert |e.key| == 1;
      assert Text.LowerChar(e.key[0]) == 'z';
      assert e.key == [e.key[0]];
    }
    if e.key in {"z", "Z"} {
      assert low[0] == 'z';
    }
  }
}
