/**
 * The generic data table: cell alignment classes, which body rows it renders, the row key
 * handler and its drop handler.
 */
module DataTable {
  import opened Wrappers
  import DD = DragDrop

  datatype Align = Left | Center | Right

  /** `cellAlignment`; an absent alignment is left. */
  function CellAlignment(align: Option<Align>): (r: string)
    ensures r == "text-center" <==> align == Some(Center)
    ensures r == "text-right" <==> align == Some(Right)
    ensures r == "text-left" <==> align != Some(Center) && align != Some(Right)
  {
    if align == Some(Center) then "text-center" else if align == Some(Right) then "text-right" else "text-left"
  }

  /** What the body holds: the error row, the skeleton row, the empty-message row, and the
      number of data rows. */
  datatype Body = Body(error: bool, skeleton: bool, empty: bool, dataRows: nat)

  function RenderBody(isError: bool, loading: bool, rowCount: nat): Body {
    Body(
      isError,
      !isError && loading,
      !isError && !loading && rowCount == 0,
      if !isError && !loading then rowCount else 0)
  }

  /** Exactly one kind of content fills the body: the error row excludes everything else, the
      skeleton needs no error, the empty message needs no error, no loading and no data, and
      the data rows appear in full otherwise. */
  lemma BodyHasOneState(isError: bool, loading: bool, rowCount: nat)
    ensures var b := RenderBody(isError, loading, rowCount);
            && (b.error ==> !b.skeleton && !b.empty && b.dataRows == 0)
            && (b.skeleton <==> !isError && loading)
            && (b.empty <==> !isError && !loading && rowCount == 0)
            && (b.dataRows > 0 <==> !isError && !loading && rowCount > 0)
            && (b.dataRows > 0 ==> b.dataRows == rowCount)
            && (if b.error then 1 else 0) + (if b.skeleton then 1 else 0) + (if b.empty then 1 else 0)
               + (if b.dataRows > 0 then 1 else 0) == 1
  {
  }

  /** `handleKeyDown`: whether `onRowClick(row)` runs. */
  function HandleKeyDown(hasOnRowClick: bool, eventKey: string): (r: bool)
    ensures r <==> hasOnRowClick && (eventKey == "Enter" || eventKey == " ")
  {
    if !hasOnRowClick then false else eventKey == "Enter" || eventKey == " "
  }

  /** `handleDrop` of this table: with dragging enabled it always clears the state, and
      `onReorder` is optional. */
  function Drop(enableDrag: bool, hasOnReorder: bool, st: DD.DragState, target: int): (r: DD.DropResult)
    ensures !enableDrag ==> r == DD.DropResult(st, None)
    ensures enableDrag ==> r.state == DD.Idle
    ensures r.reorder.Some? <==> enableDrag && hasOnReorder && st.source.Some? && st.source.value != target
    ensures r.reorder.Some? ==> r.reorder.value == (st.source.value, target)
  {
    if !enableDrag then DD.DropResult(st, None)
    else
      var settled := DD.Settle(st, target);
      if hasOnReorder then settled else settled.(reorder := None)
  }

  /** With dragging disabled, start, hover and drop change nothing and never reorder; end and
      leave still clear. */
  lemma DisabledDragIsInert(hasOnReorder: bool, st: DD.DragState, i: int, j: int)
    ensures DD.Start(false, st, i) == st && DD.Over(false, st, i) == st
    ensures Drop(false, hasOnReorder, st, j) == DD.DropResult(st, None)
    ensures DD.End(st) == DD.Idle && DD.Leave(st).source == st.source
  {
  }
}
