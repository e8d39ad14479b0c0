/**
 * The bulk-feedback overlay shown at the bottom of the sessions page while sessions are
 * selected: its count label, the at-limit warning, and which controls are disabled. The
 * optional props default as in the component: not submitting, and a limit of 100.
 */
module BulkOverlay {
  import opened Wrappers
  import Text

  const DEFAULT_MAX_SELECTIONS: int := 100

  /** What the overlay shows; Hidden when the component returns null. */
  datatype Overlay =
    | Hidden
    | Shown(countLabel: string, atLimit: bool, textareaDisabled: bool, cancelDisabled: bool,
            submitDisabled: bool, submitLabel: string)

  /** "{n} session selected" or "{n} sessions selected". */
  function CountLabel(selectedCount: nat): (r: string)
  {
    Text.NatToString(selectedCount) + (if selectedCount == 1 then " session" else " sessions") + " selected"
  }

  function Render(selectedCount: nat, feedback: string, isSubmitting: Option<bool>, maxSelections: Option<int>): (r: Overlay)
    ensures r.Hidden? <==> selectedCount == 0
    ensures r.Shown? ==> (r.atLimit <==> selectedCount >= maxSelections.GetOr(DEFAULT_MAX_SELECTIONS))
    ensures r.Shown? ==> r.textareaDisabled == isSubmitting.GetOr(false) && r.cancelDisabled == isSubmitting.GetOr(false)
    ensures r.Shown? ==> (r.submitDisabled <==> isSubmitting.GetOr(false) || Text.AllSpace(feedback))
    ensures r.Shown? ==> (r.submitLabel == "Submitting..." <==> isSubmitting.GetOr(false))
  {
    if selectedCount == 0 then Hidden
    else
      var submitting := isSubmitting.GetOr(false);
      var limit := maxSelections.GetOr(DEFAULT_MAX_SELECTIONS);
      Shown(
        CountLabel(selectedCount),
        selectedCount >= limit,
        submitting,
        submitting,
        submitting || Text.IsBlank(feedback) || selectedCount == 0,
        if submitting then "Submitting..." else "Submit Feedback")
  }

  /** With the default limit, the warning appears from the hundredth selected session on. */
  lemma DefaultLimitWarning(selectedCount: nat, feedback: string)
    requires selectedCount > 0
    ensures Render(selectedCount, feedback, None, None).atLimit <==> selectedCount >= 100
    ensures !Render(99, feedback, None, None).atLimit && Render(100, feedback, None, None).atLimit
  {
  }

  /** The label names the count and uses the singular exactly for one session. */
  lemma {:induction false} CountLabelReads(selectedCount: nat)
    ensures var shown := CountLabel(selectedCount);
            var digits := Text.NatToString(selectedCount);
            && shown[..|digits|] == digits
            && Text.DigitsValue(digits) == selectedCount
            && (shown[|digits|..] == " session selected" <==> selectedCount == 1)
            && (shown[|digits|..] == " sessions selected" <==> selectedCount != 1)
  {
    var digits := Text.NatToString(selectedCount);
    var shown := CountLabel(selectedCount);
    var tail := (if selectedCount == 1 then " session" else " sessions") + " selected";
    assert shown == digits + tail;
    assert shown[..|digits|] == digits;
    assert shown[|digits|..] == tail;
    assert |" session selected"| != |" sessions selected"|;
    Text.NatToStringRoundTrip(selectedCount);
  }
}
