/**
 * The settings modal's local state: the column-visibility map with its "at least one
 * visible column" rule, and the page size with its input fallback and save-time clamp.
 */
module SettingsModal {
  import opened SessionTypes

  const MIN_PAGE_SIZE: int := 10
  const MAX_PAGE_SIZE: int := 100

  type Visibility = map<ColumnKey, bool>

  /** `localVisibility[key]`, falsy when missing. */
  predicate Shown(vis: Visibility, key: ColumnKey) {
    key in vis && vis[key]
  }

  function VisibleKeys(vis: Visibility): set<ColumnKey> {
    set k | k in vis && vis[k]
  }

  /** `visibleCount`: the number of true entries. */
  function VisibleCount(vis: Visibility): nat {
    |VisibleKeys(vis)|
  }

  /** The guard of `handleToggleColumn`: unchecking the one visible column. */
  predicate Rejected(vis: Visibility, key: ColumnKey, value: bool) {
    !value && VisibleCount(vis) == 1 && Shown(vis, key)
  }

  /** `handleToggleColumn`. */
  function ToggleColumn(vis: Visibility, key: ColumnKey, value: bool): (r: Visibility)
    ensures Rejected(vis, key, value) ==> r == vis
    ensures !Rejected(vis, key, value) ==>
              key in r && r[key] == value && forall k :: k != key ==> (k in r <==> k in vis) && (k in vis ==> r[k] == vis[k])
  {
    if Rejected(vis, key, value) then vis else vis[key := value]
  }

  /** How a toggle moves the count: up by one when a hidden column is shown, down by one when
      a visible column is hidden, and not at all otherwise. */
  lemma ToggleCount(vis: Visibility, key: ColumnKey, value: bool)
    ensures !Rejected(vis, key, value) && value && !Shown(vis, key) ==>
              VisibleCount(ToggleColumn(vis, key, value)) == VisibleCount(vis) + 1
    ensures !Rejected(vis, key, value) && !value && Shown(vis, key) ==>
              VisibleCount(ToggleColumn(vis, key, value)) == VisibleCount(vis) - 1
    ensures (Rejected(vis, key, value) || value == Shown(vis, key)) ==>
              VisibleCount(ToggleColumn(vis, key, value)) == VisibleCount(vis)
  {
    var r := ToggleColumn(vis, key, value);
    if !Rejected(vis, key, value) {
      if value {
        assert VisibleKeys(r) == VisibleKeys(vis) + {key};
      } else {
        assert VisibleKeys(r) == VisibleKeys(vis) - {key};
      }
    }
  }

  /** From at least one visible column, every toggle keeps at least one. */
  lemma ToggleKeepsOneVisible(vis: Visibility, key: ColumnKey, value: bool)
    requires VisibleCount(vis) >= 1
    ensures VisibleCount(ToggleColumn(vis, key, value)) >= 1
  {
    ToggleCount(vis, key, value);
    if !value && Shown(vis, key) && !Rejected(vis, key, value) {
      assert VisibleCount(vis) != 1;
    }
  }

  /** `disableToggle` on a checkbox. */
  predicate CheckboxDisabled(vis: Visibility, key: ColumnKey) {
    Shown(vis, key) && VisibleCount(vis) == 1
  }

  /** A checkbox is disabled exactly when its column is the only visible one, which is
      exactly when unchecking it would be rejected. */
  lemma DisabledIffSoleVisible(vis: Visibility, key: ColumnKey)
    ensures CheckboxDisabled(vis, key) <==> VisibleKeys(vis) == {key}
    ensures CheckboxDisabled(vis, key) <==> Rejected(vis, key, false)
  {
    if CheckboxDisabled(vis, key) {
      var ks := VisibleKeys(vis);
      assert key in ks;
      if ks != {key} {
        var other :| other in ks && other != key;
        assert {key, other} <= ks;
        assert |{key, other}| == 2;
        SubsetCard({key, other}, ks);
      }
    }
  }

  lemma SubsetCard<T>(a: set<T>, b: set<T>)
    requires a <= b
    ensures |a| <= |b|
  {
    assert b == a + (b - a);
  }

  /** `Number(input)`: NaN, or a finite number, fractions included. */
  datatype JsNumber = NaN | Num(value: real)

  /** The page-size input's change handler: NaN falls back to the minimum; any other number,
      fractional or out of range, is kept as typed. */
  function OnPageSizeInput(next: JsNumber): (r: real)
    ensures next.Num? ==> r == next.value
    ensures next.NaN? ==> r == MIN_PAGE_SIZE as real
  {
    match next
    case NaN => MIN_PAGE_SIZE as real
    case Num(n) => n
  }

  /** The clamp `Math.max(MIN_PAGE_SIZE, Math.min(MAX_PAGE_SIZE, localPageSize))` in
      `handleSave`. */
  function ClampPageSize(n: real): (r: real)
    ensures MIN_PAGE_SIZE as real <= r <= MAX_PAGE_SIZE as real
    ensures MIN_PAGE_SIZE as real <= n <= MAX_PAGE_SIZE as real ==> r == n
    ensures n < MIN_PAGE_SIZE as real ==> r == MIN_PAGE_SIZE as real
    ensures n > MAX_PAGE_SIZE as real ==> r == MAX_PAGE_SIZE as real
  {
    var capped := if n < MAX_PAGE_SIZE as real then n else MAX_PAGE_SIZE as real;
    if capped < MIN_PAGE_SIZE as real then MIN_PAGE_SIZE as real else capped
  }

  datatype Applied = Applied(pageSize: real, columnVisibility: Visibility)

  /** `handleSave`: the clamped page size and the local visibility go to `onApply`. */
  function Save(localPageSize: real, vis: Visibility): (r: Applied)
    ensures MIN_PAGE_SIZE as real <= r.pageSize <= MAX_PAGE_SIZE as real
    ensures r.columnVisibility == vis
  {
    Applied(ClampPageSize(localPageSize), vis)
  }

  /** The clamp does not round: a typed fraction inside the bounds, such as 12.5, is what
      `onApply` receives, so a non-integer page size can leave the modal. */
  lemma FractionalSizeIsApplied(vis: Visibility)
    ensures Save(OnPageSizeInput(Num(12.5)), vis).pageSize == 12.5
    ensures forall n: real :: MIN_PAGE_SIZE as real <= n <= MAX_PAGE_SIZE as real ==>
              Save(OnPageSizeInput(Num(n)), vis).pageSize == n
  {
  }

  /** Clamping is idempotent: saving a saved size keeps it. */
  lemma ClampIdempotent(n: real)
    ensures ClampPageSize(ClampPageSize(n)) == ClampPageSize(n)
  {
  }
}
