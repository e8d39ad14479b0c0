/**
 * The row drag-and-drop protocol shared by the sessions table and the generic data table:
 * a recorded source row (`dragIndexRef`) and a hovered row (`dragOverIndex`). Start and
 * hover only act when dragging is enabled; end and leave always act. The two tables differ
 * only in their drop handlers, which live with each table.
 */
module DragDrop {
  import opened Wrappers

  datatype DragState = DragState(source: Option<int>, over: Option<int>)

  const Idle: DragState := DragState(None, None)

  /** `handleDragStart`. */
  function Start(enabled: bool, st: DragState, index: int): (r: DragState)
    ensures !enabled ==> r == st
    ensures enabled ==> r.source == Some(index) && r.over == st.over
  {
    if !enabled then st else st.(source := Some(index))
  }

  /** `handleDragOver`: the hovered row is recorded (setting it to its own value is a no-op). */
  function Over(enabled: bool, st: DragState, index: int): (r: DragState)
    ensures !enabled ==> r == st
    ensures enabled ==> r.over == Some(index) && r.source == st.source
  {
    if !enabled then st else if st.over == Some(index) then st else st.(over := Some(index))
  }

  /** `handleDragEnd`: both indices are cleared. */
  function End(st: DragState): (r: DragState)
    ensures r.source == None && r.over == None
  {
    Idle
  }

  /** `handleDragLeave`: only the hovered row is cleared. */
  function Leave(st: DragState): (r: DragState)
    ensures r.over == None && r.source == st.source
  {
    st.(over := None)
  }

  /** What a drop does: the state afterwards and the `onReorder(source, target)` call, if any. */
  datatype DropResult = DropResult(state: DragState, reorder: Option<(int, int)>)

  /** The common core of both drop handlers once they have decided to act: with no recorded
      start, or a drop onto the start row, only clear; otherwise also report the move. */
  function Settle(st: DragState, target: int): (r: DropResult)
    ensures r.state == Idle
    ensures r.reorder.Some? <==> st.source.Some? && st.source.value != target
    ensures r.reorder.Some? ==> r.reorder.value == (st.source.value, target)
  {
    match st.source
    case None => DropResult(Idle, None)
    case Some(src) => if src == target then DropResult(Idle, None) else DropResult(Idle, Some((src, target)))
  }
}
