/**
 * The failed-sessions modal: after a bulk update, the ids the server reports as failed are
 * looked up among the loaded sessions, through a map from id to session in which a later
 * session with the same id replaces an earlier one. Ids with no loaded session are dropped.
 */
module FailedSessions {
  import Text

  /** The part of a session the modal lists. */
  datatype Item = Item(id: string, title: string)

  /** `new Map(sessions.map((s) => [s.id, s]))`, built left to right so that a later session
      replaces an earlier one with the same id. */
  function SessionMap(sessions: seq<Item>): (r: map<string, Item>)
    ensures forall id :: id in r ==> r[id].id == id
  {
    if sessions == [] then map[]
    else
      var last := sessions[|sessions| - 1];
      SessionMap(sessions[..|sessions| - 1])[last.id := last]
  }

  /** The map has a key for exactly the ids of the loaded sessions. */
  lemma {:induction false} SessionMapKeys(sessions: seq<Item>, id: string)
    ensures id in SessionMap(sessions) <==> exists i :: 0 <= i < |sessions| && sessions[i].id == id
  {
    if sessions != [] {
      var init := sessions[..|sessions| - 1];
      SessionMapKeys(init, id);
      if exists i :: 0 <= i < |init| && init[i].id == id {
        var i :| 0 <= i < |init| && init[i].id == id;
        assert sessions[i] == init[i];
      }
      if exists i :: 0 <= i < |sessions| && sessions[i].id == id {
        var i :| 0 <= i < |sessions| && sessions[i].id == id;
        if i < |init| {
          assert init[i] == sessions[i];
        }
      }
    }
  }

  /** Each id maps to the last loaded session carrying it. */
  lemma {:induction false} SessionMapKeepsLast(sessions: seq<Item>, id: string)
    requires id in SessionMap(sessions)
    ensures exists i :: 0 <= i < |sessions| && sessions[i] == SessionMap(sessions)[id] && LastWithId(sessions, i)
  {
    var init := sessions[..|sessions| - 1];
    var last := sessions[|sessions| - 1];
    if id == last.id {
      assert sessions[|sessions| - 1] == SessionMap(sessions)[id];
      assert LastWithId(sessions, |sessions| - 1);
    } else {
      SessionMapKeepsLast(init, id);
      var i :| 0 <= i < |init| && init[i] == SessionMap(init)[id] && LastWithId(init, i);
      assert sessions[i] == init[i];
      assert LastWithId(sessions, i);
    }
  }

  /** No later session has the same id as the one at `i`. */
  predicate LastWithId(sessions: seq<Item>, i: nat)
    requires i < |sessions|
  {
    forall j :: i < j < |sessions| ==> sessions[j].id != sessions[i].id
  }

  /** `ids.map((id) => m.get(id)).filter(Boolean)`: the looked-up sessions in id order. */
  function Lookup(ids: seq<string>, m: map<string, Item>): (r: seq<Item>)
    ensures |r| <= |ids|
    ensures forall x :: x in r <==> exists id :: id in ids && id in m && m[id] == x
  {
    if ids == [] then []
    else
      var init := ids[..|ids| - 1];
      var id := ids[|ids| - 1];
      var rest := Lookup(init, m);
      assert forall k :: k in ids <==> k in init || k == id by {
        assert ids == init + [id];
      }
      if id in m then rest + [m[id]] else rest
  }

  /** The lookup handles one id at a time, left to right: it keeps the failed ids' order. */
  lemma LookupAppend(ids: seq<string>, id: string, m: map<string, Item>)
    ensures Lookup(ids + [id], m) == Lookup(ids, m) + (if id in m then [m[id]] else [])
  {
    assert (ids + [id])[..|ids|] == ids;
  }

  /** The `failedSessions` memo. */
  function FailedList(failedIds: seq<string>, sessions: seq<Item>): (r: seq<Item>)
    ensures |r| <= |failedIds|
    ensures forall x :: x in r ==> x.id in failedIds
  {
    Lookup(failedIds, SessionMap(sessions))
  }

  /** An item is listed exactly when its id failed and it is the last loaded session with
      that id. */
  lemma {:induction false} FailedListMembers(failedIds: seq<string>, sessions: seq<Item>, x: Item)
    ensures x in FailedList(failedIds, sessions) <==>
              x.id in failedIds && exists i :: 0 <= i < |sessions| && sessions[i] == x && LastWithId(sessions, i)
  {
    var m := SessionMap(sessions);
    if x.id in failedIds && exists i :: 0 <= i < |sessions| && sessions[i] == x && LastWithId(sessions, i) {
      var i :| 0 <= i < |sessions| && sessions[i] == x && LastWithId(sessions, i);
      SessionMapKeys(sessions, x.id);
      SessionMapKeepsLast(sessions, x.id);
      var k :| 0 <= k < |sessions| && sessions[k] == m[x.id] && LastWithId(sessions, k);
      assert sessions[k].id == sessions[i].id;
      assert i == k;
    }
    if x in FailedList(failedIds, sessions) {
      var id :| id in failedIds && id in m && m[id] == x;
      SessionMapKeepsLast(sessions, id);
    }
  }

  /** One more failed id: with no loaded session it adds nothing; otherwise it adds exactly
      the last loaded session with that id, after the sessions of the earlier ids. */
  lemma FailedListAppend(failedIds: seq<string>, id: string, sessions: seq<Item>)
    ensures (forall i :: 0 <= i < |sessions| ==> sessions[i].id != id) ==>
              FailedList(failedIds + [id], sessions) == FailedList(failedIds, sessions)
    ensures (exists i :: 0 <= i < |sessions| && sessions[i].id == id) ==>
              exists i :: && 0 <= i < |sessions| && sessions[i].id == id && LastWithId(sessions, i)
                          && FailedList(failedIds + [id], sessions) == FailedList(failedIds, sessions) + [sessions[i]]
  {
    var m := SessionMap(sessions);
    SessionMapKeys(sessions, id);
    LookupAppend(failedIds, id, m);
    if id in m {
      SessionMapKeepsLast(sessions, id);
    }
  }

  /** The modal title: "Failed Sessions (n)". */
  function Title(failed: seq<Item>): (r: string)
  {
    "Failed Sessions (" + Text.NatToString(|failed|) + ")"
  }

  /** The word in "The following … failed to update". */
  function Noun(failed: seq<Item>): (r: string)
    ensures r == "session" <==> |failed| == 1
    ensures r == "sessions" <==> |failed| != 1
  {
    if |failed| == 1 then "session" else "sessions"
  }

  /** The count in the title reads back as the number of listed sessions. */
  lemma TitleCountsList(failed: seq<Item>)
    ensures var t := Title(failed);
            var digits := t[17..|t| - 1];
            && t[..17] == "Failed Sessions ("
            && t[|t| - 1] == ')'
            && (forall i :: 0 <= i < |digits| ==> Text.IsDigit(digits[i]))
            && Text.DigitsValue(digits) == |failed|
  {
    var t := Title(failed);
    var digits := Text.NatToString(|failed|);
    assert t == "Failed Sessions (" + digits + ")";
    assert t[17..|t| - 1] == digits;
    Text.NatToStringRoundTrip(|failed|);
  }
}
