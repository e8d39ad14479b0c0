/**
 * The select dropdown: which text the trigger shows, and the open/focus state machine driven
 * by the trigger, the keyboard, option clicks, the backdrop and clicks outside. Option values
 * are strings or integers and are compared by their string form, as `String(value)` does.
 * Focus moves of the DOM (returning focus to the trigger) are left out.
 */
module Select {
  import opened Wrappers
  import Text

  datatype Value = Str(s: string) | Num(n: int)

  datatype SelectOption = SelectOption(value: Value, text: string)

  /** `String(value)`; an absent value reads "undefined". */
  function Render(v: Option<Value>): string {
    match v
    case None => "undefined"
    case Some(Str(s)) => s
    case Some(Num(n)) => Text.IntToString(n)
  }

  /** JavaScript truthiness: the empty string, zero and an absent value are falsy. */
  predicate Truthy(v: Option<Value>) {
    match v
    case None => false
    case Some(Str(s)) => s != []
    case Some(Num(n)) => n != 0
  }

  predicate Matches(o: SelectOption, value: Option<Value>) {
    Render(Some(o.value)) == Render(value)
  }

  /** `options.findIndex((opt) => String(opt.value) === String(value))`, from position `from`. */
  function FindIndex(options: seq<SelectOption>, value: Option<Value>, from: nat): (r: int)
    requires from <= |options|
    ensures r == -1 || from <= r < |options|
    ensures r >= 0 ==> Matches(options[r], value) && forall j :: from <= j < r ==> !Matches(options[j], value)
    decreases |options| - from
  {
    if from == |options| then -1
    else if Matches(options[from], value) then from
    else FindIndex(options, value, from + 1)
  }

  /** The search finds nothing exactly when no option from `from` on matches. */
  lemma {:induction false} FindIndexNone(options: seq<SelectOption>, value: Option<Value>, from: nat)
    requires from <= |options|
    ensures FindIndex(options, value, from) == -1 <==> forall j :: from <= j < |options| ==> !Matches(options[j], value)
    decreases |options| - from
  {
    if from < |options| && !Matches(options[from], value) {
      FindIndexNone(options, value, from + 1);
      if FindIndex(options, value, from) == -1 {
        forall j | from <= j < |options|
          ensures !Matches(options[j], value)
        {
          if j > from {
            assert from + 1 <= j;
          }
        }
      }
    }
  }

  /** `displayValue`: the first matching option's text, else the placeholder, else the
      default prompt. */
  function DisplayValue(options: seq<SelectOption>, value: Option<Value>, placeholder: Option<string>): (r: string)
    ensures (exists i :: 0 <= i < |options| && Matches(options[i], value)) ==>
              exists i :: && 0 <= i < |options| && Matches(options[i], value) && r == options[i].text
                          && forall j :: 0 <= j < i ==> !Matches(options[j], value)
    ensures (forall i :: 0 <= i < |options| ==> !Matches(options[i], value)) ==>
              r == (if placeholder.Some? then placeholder.value else "Select an option")
  {
    var i := FindIndex(options, value, 0);
    FindIndexNone(options, value, 0);
    if i >= 0 then options[i].text else placeholder.GetOr("Select an option")
  }

  /** An absent value matches an option whose value is the string "undefined". */
  lemma AbsentValueMatchesUndefinedString(placeholder: Option<string>)
    ensures DisplayValue([SelectOption(Str("undefined"), "Undefined")], None, placeholder) == "Undefined"
  {
    assert Matches(SelectOption(Str("undefined"), "Undefined"), None);
  }

  datatype SelectState = SelectState(isOpen: bool, focused: int)

  const Closed: SelectState := SelectState(false, -1)

  /** While open, focus is on an option, or on 0 when there are none. */
  predicate Valid(st: SelectState, optionCount: nat) {
    st.isOpen ==> 0 <= st.focused && (optionCount > 0 ==> st.focused < optionCount)
  }

  /** `handleToggle`. Opening focuses the selected option, or the first one when the value is
      falsy or matches nothing; closing keeps the focus index. */
  function Toggle(st: SelectState, disabled: bool, options: seq<SelectOption>, value: Option<Value>): (r: SelectState)
    ensures disabled ==> r == st
    ensures !disabled ==> r.isOpen == !st.isOpen
    ensures !disabled && st.isOpen ==> r.focused == st.focused
    ensures !disabled && !st.isOpen && Truthy(value) && (exists i :: 0 <= i < |options| && Matches(options[i], value)) ==>
              0 <= r.focused < |options| && Matches(options[r.focused], value) && forall j :: 0 <= j < r.focused ==> !Matches(options[j], value)
    ensures !disabled && !st.isOpen && (!Truthy(value) || forall i :: 0 <= i < |options| ==> !Matches(options[i], value)) ==>
              r.focused == 0
  {
    if disabled then st
    else if !st.isOpen then
      FindIndexNone(options, value, 0);
      var current := if Truthy(value) then FindIndex(options, value, 0) else -1;
      SelectState(true, if current >= 0 then current else 0)
    else st.(isOpen := false)
  }

  /** `handleSelect`: close and clear the focus; the value goes to `onChange`. */
  function Choose(v: Value): (SelectState, Option<Value>) {
    (Closed, Some(v))
  }

  /** The key handler, attached only while open. Returns the new state and the value handed
      to `onChange`, if any. */
  function Key(st: SelectState, options: seq<SelectOption>, key: string): (r: (SelectState, Option<Value>))
    ensures !st.isOpen ==> r == (st, None)
    ensures r.1.Some? <==> st.isOpen && key == "Enter" && 0 <= st.focused < |options|
    ensures r.1.Some? ==> r.1.value == options[st.focused].value && r.0 == Closed
    ensures st.isOpen && key == "Escape" ==> r == (Closed, None)
    ensures st.isOpen && key == "ArrowDown" && Valid(st, |options|) && |options| > 0 ==>
              r.0.isOpen && r.0.focused == (if st.focused + 1 < |options| then st.focused + 1 else |options| - 1)
    ensures st.isOpen && key == "ArrowUp" && Valid(st, |options|) ==>
              r.0.isOpen && r.0.focused == (if st.focused >= 1 then st.focused - 1 else 0)
    ensures key !in {"ArrowDown", "ArrowUp", "Enter", "Escape"} ==> r == (st, None)
  {
    if !st.isOpen then (st, None)
    else if key == "ArrowDown" then
      (st.(focused := if st.focused < |options| - 1 then st.focused + 1 else st.focused), None)
    else if key == "ArrowUp" then
      (st.(focused := if st.focused > 0 then st.focused - 1 else st.focused), None)
    else if key == "Enter" then
      if 0 <= st.focused < |options| then Choose(options[st.focused].value) else (st, None)
    else if key == "Escape" then (Closed, None)
    else (st, None)
  }

  datatype Event =
    | TriggerClick
    | KeyDown(key: string)
    | OptionClick(index: nat)
    | BackdropClick
    | OutsideMouseDown

  /** One event. Options and the backdrop exist only while open; the outside-click listener is
      attached only while open. A backdrop click closes without clearing the focus. */
  function Step(st: SelectState, ev: Event, disabled: bool, options: seq<SelectOption>, value: Option<Value>): (r: (SelectState, Option<Value>))
  {
    match ev
    case TriggerClick => (Toggle(st, disabled, options, value), None)
    case KeyDown(key) => Key(st, options, key)
    case OptionClick(i) => if st.isOpen && i < |options| then Choose(options[i].value) else (st, None)
    case BackdropClick => if st.isOpen then (st.(isOpen := false), None) else (st, None)
    case OutsideMouseDown => if st.isOpen then (Closed, None) else (st, None)
  }

  /** Every event keeps focus on an option while the dropdown is open. */
  lemma StepKeepsValid(st: SelectState, ev: Event, disabled: bool, options: seq<SelectOption>, value: Option<Value>)
    requires Valid(st, |options|)
    ensures Valid(Step(st, ev, disabled, options, value).0, |options|)
  {
  }

  /** Any value handed to `onChange` is the value of one of the options, and it closes the
      dropdown. */
  lemma ChangesComeFromOptions(st: SelectState, ev: Event, disabled: bool, options: seq<SelectOption>, value: Option<Value>)
    ensures var (next, changed) := Step(st, ev, disabled, options, value);
            changed.Some? ==> next == Closed && exists i :: 0 <= i < |options| && options[i].value == changed.value
  {
  }

  /** Enter on an open dropdown with options always selects the focused option. */
  lemma EnterSelectsFocused(st: SelectState, options: seq<SelectOption>)
    requires st.isOpen && Valid(st, |options|) && |options| > 0
    ensures Key(st, options, "Enter") == (Closed, Some(options[st.focused].value))
  {
  }

  /** After choosing an option, whose value the parent then passes back, reopening focuses
      that option again, provided option values have distinct string forms and the chosen
      value is truthy. */
  lemma ReopenFocusesChosen(options: seq<SelectOption>, i: nat)
    requires i < |options|
    requires forall j, k :: 0 <= j < k < |options| ==> Render(Some(options[j].value)) != Render(Some(options[k].value))
    requires Truthy(Some(options[i].value))
    ensures Toggle(Closed, false, options, Some(options[i].value)) == SelectState(true, i)
  {
    assert Matches(options[i], Some(options[i].value));
  }
}
