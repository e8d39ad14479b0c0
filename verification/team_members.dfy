/**
 * The team-members list's reorder handler: the dragged member is spliced out of its row and
 * spliced back in at the drop row, and the new list goes to `onReorder`.
 */
module TeamMembers {
  import opened Wrappers

  /** The list with position `i` removed: `splice(i, 1)`. */
  function RemoveAt<T>(s: seq<T>, i: nat): (r: seq<T>)
    requires i < |s|
    ensures |r| == |s| - 1
    ensures forall k :: 0 <= k < i ==> r[k] == s[k]
    ensures forall k :: i <= k < |r| ==> r[k] == s[k + 1]
  {
    s[..i] + s[i + 1..]
  }

  /** `splice(i, 0, x)`. */
  function InsertAt<T>(s: seq<T>, i: nat, x: T): (r: seq<T>)
    requires i <= |s|
    ensures |r| == |s| + 1 && r[i] == x
    ensures r[..i] + r[i + 1..] == s
  {
    assert (s[..i] + [x] + s[i..])[i + 1..] == s[i..];
    s[..i] + [x] + s[i..]
  }

  /** The splice move: both indices are rows of the list (they come from rendered rows). */
  function MoveItem<T>(s: seq<T>, source: nat, target: nat): (r: seq<T>)
    requires source < |s| && target < |s|
    ensures |r| == |s|
    ensures r[target] == s[source]
    ensures r[..target] + r[target + 1..] == RemoveAt(s, source)
  {
    InsertAt(RemoveAt(s, source), target, s[source])
  }

  /** The move is a permutation. */
  lemma MoveIsPermutation<T>(s: seq<T>, source: nat, target: nat)
    requires source < |s| && target < |s|
    ensures multiset(MoveItem(s, source, target)) == multiset(s)
  {
    var r := MoveItem(s, source, target);
    var rest := RemoveAt(s, source);
    assert r == r[..target] + [r[target]] + r[target + 1..];
    assert multiset(r) == multiset(r[..target] + r[target + 1..]) + multiset{s[source]};
    assert s == s[..source] + [s[source]] + s[source + 1..];
    assert multiset(s) == multiset(rest) + multiset{s[source]};
  }

  /** Dropping a row onto itself gives back the same order. */
  lemma MoveOntoItselfIsIdentity<T>(s: seq<T>, i: nat)
    requires i < |s|
    ensures MoveItem(s, i, i) == s
  {
    var r := MoveItem(s, i, i);
    assert r == r[..i] + [r[i]] + r[i + 1..];
    assert r[..i] == s[..i];
    assert r[i + 1..] == s[i + 1..];
  }

  /** `handleReorder`: the list passed to `onReorder`, or None when there is no handler. */
  function HandleReorder<T>(members: seq<T>, hasOnReorder: bool, source: nat, target: nat): (r: Option<seq<T>>)
    requires source < |members| && target < |members|
    ensures !hasOnReorder ==> r == None
    ensures hasOnReorder ==> r == Some(MoveItem(members, source, target))
  {
    if !hasOnReorder then None else Some(MoveItem(members, source, target))
  }
}
