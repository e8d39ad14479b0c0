/**
 * The dashboard's derived lists: members in a saved drag order, the active tab's members
 * matching the search, the top three performers, the per-tab member counts, and the saved
 * order per tab. Users carry only the fields these derivations read.
 */
module Dashboard {
  import opened Wrappers
  import Text
  import Constants

  datatype DepartmentKey = Sales | Executive | Engineering

  /** `TEAM_NAME_MAP`. */
  function TeamName(k: DepartmentKey): string {
    match k
    case Sales => "Sales"
    case Executive => "Executive"
    case Engineering => "Engineering"
  }

  datatype UserPerformance = UserPerformance(userId: string, firstName: string, team: string, avgScore: real)

  /** A tab of the department navigation; its label is left out. */
  datatype TabOption = TabOption(id: DepartmentKey)

  predicate UniqueIds(members: seq<UserPerformance>) {
    forall i, j :: 0 <= i < j < |members| ==> members[i].userId != members[j].userId
  }

  predicate Distinct(ids: seq<string>) {
    forall i, j :: 0 <= i < j < |ids| ==> ids[i] != ids[j]
  }

  /** `new Map(members.map(m => [m.user_id, m])).get(id)`: the last member with that id. */
  function LastWith(members: seq<UserPerformance>, id: string): (r: Option<UserPerformance>)
    ensures r.Some? ==> r.value in members && r.value.userId == id
    ensures r.None? <==> forall m :: m in members ==> m.userId != id
  {
    if members == [] then None
    else match LastWith(members[1..], id)
      case Some(m) => Some(m)
      case None => if members[0].userId == id then Some(members[0]) else None
  }

  /** The listed ids that match a member, mapped to that member, in list order. */
  function Picked(members: seq<UserPerformance>, ids: seq<string>): (r: seq<UserPerformance>)
    ensures |r| <= |ids|
    ensures forall m :: m in r ==> m in members && m.userId in ids
  {
    if ids == [] then []
    else
      var head := match LastWith(members, ids[0]) case Some(m) => [m] case None => [];
      head + Picked(members, ids[1..])
  }

  /** Picking one more id appends that id's member, if any, after those already picked: the
      result follows the id list's order. */
  lemma {:induction false} PickedAppend(members: seq<UserPerformance>, ids: seq<string>, id: string)
    ensures Picked(members, ids + [id]) ==
            Picked(members, ids) + (match LastWith(members, id) case Some(m) => [m] case None => [])
    decreases |ids|
  {
    if ids == [] {
      assert ([] + [id])[1..] == [];
    } else {
      assert (ids + [id])[1..] == ids[1..] + [id];
      PickedAppend(members, ids[1..], id);
    }
  }

  /** The members whose id is not listed, in their original order. */
  function Unlisted(members: seq<UserPerformance>, ids: seq<string>): (r: seq<UserPerformance>)
    ensures forall m :: m in r <==> m in members && m.userId !in ids
  {
    if members == [] then []
    else (if members[0].userId !in ids then [members[0]] else []) + Unlisted(members[1..], ids)
  }

  /** `orderMembersByIds`: an absent or empty order keeps the members as they are; otherwise
      the listed members come first in list order and the rest follow in their own order. */
  function OrderMembersByIds(members: seq<UserPerformance>, orderedIds: Option<seq<string>>): (r: seq<UserPerformance>)
    ensures orderedIds.None? || orderedIds.value == [] ==> r == members
    ensures orderedIds.Some? && orderedIds.value != [] ==>
              r == Picked(members, orderedIds.value) + Unlisted(members, orderedIds.value)
    ensures forall m :: m in r ==> m in members
  {
    if orderedIds.None? || orderedIds.value == [] then members
    else Picked(members, orderedIds.value) + Unlisted(members, orderedIds.value)
  }

  /** The members whose id is in `ids`, in member order: an independent reference for `Picked`. */
  function WithIdIn(members: seq<UserPerformance>, ids: set<string>): seq<UserPerformance> {
    if members == [] then []
    else (if members[0].userId in ids then [members[0]] else []) + WithIdIn(members[1..], ids)
  }

  function IdSet(ids: seq<string>): (r: set<string>)
    ensures forall id :: id in r <==> id in ids
  {
    if ids == [] then {} else {ids[0]} + IdSet(ids[1..])
  }

  lemma {:induction false} UnlistedIsComplement(members: seq<UserPerformance>, ids: seq<string>)
    ensures multiset(WithIdIn(members, IdSet(ids))) + multiset(Unlisted(members, ids)) == multiset(members)
  {
    if members != [] {
      var h := members[0];
      var t := members[1..];
      var a := multiset(WithIdIn(t, IdSet(ids)));
      var b := multiset(Unlisted(t, ids));
      assert members == [h] + t;
      UnlistedIsComplement(t, ids);
      SplitFirstMember(members, ids);
      calc {
        multiset(WithIdIn(members, IdSet(ids))) + multiset(Unlisted(members, ids));
        multiset{h} + a + b;
        multiset{h} + (a + b);
        multiset{h} + multiset(t);
        multiset([h] + t);
      }
    }
  }

  /** The first member lands in exactly one of the two parts. */
  lemma SplitFirstMember(members: seq<UserPerformance>, ids: seq<string>)
    requires members != []
    ensures multiset(WithIdIn(members, IdSet(ids))) + multiset(Unlisted(members, ids))
            == multiset{members[0]} + multiset(WithIdIn(members[1..], IdSet(ids))) + multiset(Unlisted(members[1..], ids))
  {
    var h := members[0];
    var t := members[1..];
    if h.userId in ids {
      assert WithIdIn(members, IdSet(ids)) == [h] + WithIdIn(t, IdSet(ids));
      assert Unlisted(members, ids) == Unlisted(t, ids);
    } else {
      assert WithIdIn(members, IdSet(ids)) == WithIdIn(t, IdSet(ids));
      assert Unlisted(members, ids) == [h] + Unlisted(t, ids);
    }
  }

  lemma {:induction false} WithIdInUnion(members: seq<UserPerformance>, a: set<string>, b: set<string>)
    requires a !! b
    ensures multiset(WithIdIn(members, a + b)) == multiset(WithIdIn(members, a)) + multiset(WithIdIn(members, b))
  {
    if members != [] {
      WithIdInUnion(members[1..], a, b);
    }
  }

  lemma {:induction false} UniqueTail(members: seq<UserPerformance>)
    requires members != [] && UniqueIds(members)
    ensures UniqueIds(members[1..])
    ensures forall m :: m in members[1..] ==> m.userId != members[0].userId
  {
    forall m | m in members[1..]
      ensures m.userId != members[0].userId
    {
      var k :| 0 <= k < |members[1..]| && members[1..][k] == m;
      assert members[k + 1] == m;
    }
  }

  /** With unique ids, the members carrying one id are exactly what the map lookup returns. */
  lemma {:induction false} SingleIdFilter(members: seq<UserPerformance>, id: string)
    requires UniqueIds(members)
    ensures WithIdIn(members, {id}) == match LastWith(members, id) case Some(m) => [m] case None => []
  {
    if members != [] {
      UniqueTail(members);
      SingleIdFilter(members[1..], id);
      if members[0].userId == id {
        assert LastWith(members[1..], id).None?;
      }
    }
  }

  /** With unique member ids and a duplicate-free order, the listed part holds exactly the
      members whose id is listed. */
  lemma {:induction false} PickedIsWithIdIn(members: seq<UserPerformance>, ids: seq<string>)
    requires UniqueIds(members) && Distinct(ids)
    ensures multiset(Picked(members, ids)) == multiset(WithIdIn(members, IdSet(ids)))
    decreases |ids|
  {
    if ids == [] {
      WithIdInNone(members);
    } else {
      var rest := ids[1..];
      assert Distinct(rest);
      PickedIsWithIdIn(members, rest);
      SingleIdFilter(members, ids[0]);
      assert ids[0] !in rest;
      WithIdInUnion(members, {ids[0]}, IdSet(rest));
      assert multiset(Picked(members, ids)) == multiset(WithIdIn(members, {ids[0]})) + multiset(Picked(members, rest));
    }
  }

  lemma {:induction false} WithIdInNone(members: seq<UserPerformance>)
    ensures WithIdIn(members, {}) == []
  {
    if members != [] {
      WithIdInNone(members[1..]);
    }
  }

  /** With unique member ids and a duplicate-free order, reordering loses and duplicates no
      member. */
  lemma OrderIsPermutation(members: seq<UserPerformance>, orderedIds: Option<seq<string>>)
    requires UniqueIds(members) && (orderedIds.Some? ==> Distinct(orderedIds.value))
    ensures multiset(OrderMembersByIds(members, orderedIds)) == multiset(members)
  {
    if orderedIds.Some? && orderedIds.value != [] {
      PickedIsWithIdIn(members, orderedIds.value);
      UnlistedIsComplement(members, orderedIds.value);
    }
  }

  function Ids(members: seq<UserPerformance>): (r: seq<string>)
    ensures |r| == |members|
    ensures forall i :: 0 <= i < |members| ==> r[i] == members[i].userId
  {
    seq(|members|, i requires 0 <= i < |members| => members[i].userId)
  }

  /** A saved order that came from a rearrangement of the same members brings that
      arrangement back. */
  lemma {:induction false} SavedOrderIsRestored(members: seq<UserPerformance>, next: seq<UserPerformance>)
    requires UniqueIds(members) && multiset(next) == multiset(members) && next != []
    ensures OrderMembersByIds(members, Some(Ids(next))) == next
  {
    PickedAll(members, next);
    forall m | m in members
      ensures m.userId in Ids(next)
    {
      assert m in multiset(next);
      var k :| 0 <= k < |next| && next[k] == m;
      assert Ids(next)[k] == m.userId;
    }
    NothingUnlisted(members, Ids(next));
  }

  lemma NothingUnlisted(members: seq<UserPerformance>, ids: seq<string>)
    requires forall m :: m in members ==> m.userId in ids
    ensures Unlisted(members, ids) == []
  {
  }

  lemma {:induction false} PickedAll(members: seq<UserPerformance>, next: seq<UserPerformance>)
    requires UniqueIds(members) && multiset(next) <= multiset(members)
    ensures Picked(members, Ids(next)) == next
    decreases |next|
  {
    if next != [] {
      var m := next[0];
      assert m in multiset(members);
      assert LastWith(members, m.userId) == Some(m) by {
        var found := LastWith(members, m.userId).value;
        var i :| 0 <= i < |members| && members[i] == m;
        var j :| 0 <= j < |members| && members[j] == found;
        assert members[i].userId == members[j].userId;
      }
      assert Ids(next)[1..] == Ids(next[1..]);
      assert next == [m] + next[1..];
      assert multiset(next[1..]) <= multiset(next);
      PickedAll(members, next[1..]);
    }
  }

  /** The saved order per tab (`teamMemberOrder`). */
  type Orders = map<DepartmentKey, seq<string>>

  function SavedOrder(orders: Orders, tab: DepartmentKey): Option<seq<string>> {
    if tab in orders then Some(orders[tab]) else None
  }

  /** The filter inside `usersForTab`: the active team's members whose lower-cased first name
      contains the lower-cased, trimmed search. */
  function MatchingMembers(users: seq<UserPerformance>, tab: DepartmentKey, searchTerm: string): (r: seq<UserPerformance>)
    ensures forall m :: m in r <==>
              m in users && m.team == TeamName(tab) && Text.Contains(Text.Lower(m.firstName), Text.Trim(Text.Lower(searchTerm)))
    ensures UniqueIds(users) ==> UniqueIds(r)
  {
    MembersMatching(users, tab, Text.Trim(Text.Lower(searchTerm)))
  }

  /** The filter of `MatchingMembers`, given the already trimmed, lower-cased term. */
  function MembersMatching(users: seq<UserPerformance>, tab: DepartmentKey, term: string): (r: seq<UserPerformance>)
    ensures forall m :: m in r <==> m in users && m.team == TeamName(tab) && Text.Contains(Text.Lower(m.firstName), term)
    ensures UniqueIds(users) ==> UniqueIds(r)
  {
    if users == [] then []
    else
      var m := users[0];
      var keep := m.team == TeamName(tab) && Text.Contains(Text.Lower(m.firstName), term);
      var rest := MembersMatching(users[1..], tab, term);
      assert UniqueIds(users) ==> UniqueIds(users[1..]) && forall x :: x in rest ==> x.userId != m.userId by {
        if UniqueIds(users) { UniqueTail(users); }
      }
      (if keep then [m] else []) + rest
  }

  /** `usersForTab`. */
  function UsersForTab(users: seq<UserPerformance>, tab: DepartmentKey, searchTerm: string, orders: Orders): seq<UserPerformance> {
    OrderMembersByIds(MatchingMembers(users, tab, searchTerm), SavedOrder(orders, tab))
  }

  /** With unique user ids and a duplicate-free saved order, the tab shows each matching
      member exactly once and nobody else. */
  lemma UsersForTabExactly(users: seq<UserPerformance>, tab: DepartmentKey, searchTerm: string, orders: Orders)
    requires UniqueIds(users) && (tab in orders ==> Distinct(orders[tab]))
    ensures multiset(UsersForTab(users, tab, searchTerm, orders)) == multiset(MatchingMembers(users, tab, searchTerm))
    ensures forall m :: m in UsersForTab(users, tab, searchTerm, orders) <==>
              m in users && m.team == TeamName(tab) && Text.Contains(Text.Lower(m.firstName), Text.Trim(Text.Lower(searchTerm)))
  {
    var matching := MatchingMembers(users, tab, searchTerm);
    OrderIsPermutation(matching, SavedOrder(orders, tab));
    forall m
      ensures m in UsersForTab(users, tab, searchTerm, orders) <==> m in matching
    {
      assert m in UsersForTab(users, tab, searchTerm, orders) <==> m in multiset(UsersForTab(users, tab, searchTerm, orders));
    }
  }

  /** `handleReorderMembers`: the new order is saved under the active tab only. */
  function HandleReorderMembers(orders: Orders, activeTab: DepartmentKey, nextMembers: seq<UserPerformance>): (r: Orders)
    ensures activeTab in r && r[activeTab] == Ids(nextMembers)
    ensures forall k :: k != activeTab ==> (k in r <==> k in orders) && (k in orders ==> r[k] == orders[k])
  {
    orders[activeTab := Ids(nextMembers)]
  }

  /** After a reorder of the members the tab shows (with no search, so the tab shows the
      whole team), the tab shows them in the new order. */
  lemma ReorderIsShown(users: seq<UserPerformance>, orders: Orders, tab: DepartmentKey, next: seq<UserPerformance>)
    requires UniqueIds(users) && next != []
    requires multiset(next) == multiset(MatchingMembers(users, tab, ""))
    ensures UsersForTab(users, tab, "", HandleReorderMembers(orders, tab, next)) == next
  {
    SavedOrderIsRestored(MatchingMembers(users, tab, ""), next);
  }

  /** The members of one team, in their original order. */
  function OfTeam(users: seq<UserPerformance>, team: string): (r: seq<UserPerformance>)
    ensures forall m :: m in r <==> m in users && m.team == team
    ensures |r| <= |users|
  {
    if users == [] then []
    else (if users[0].team == team then [users[0]] else []) + OfTeam(users[1..], team)
  }

  /** Inserts `x` before the first entry it is not below, so equal scores keep their order. */
  function Insert(x: UserPerformance, sorted: seq<UserPerformance>): (r: seq<UserPerformance>)
    ensures multiset(r) == multiset(sorted) + multiset{x}
    ensures |r| == |sorted| + 1 && (r[0] == x || (sorted != [] && r[0] == sorted[0]))
  {
    if sorted == [] || x.avgScore >= sorted[0].avgScore then [x] + sorted
    else
      assert sorted == [sorted[0]] + sorted[1..];
      [sorted[0]] + Insert(x, sorted[1..])
  }

  /** Insertion keeps a descending sequence descending. */
  lemma {:induction false} InsertSorted(x: UserPerformance, sorted: seq<UserPerformance>)
    requires SortedDesc(sorted)
    ensures SortedDesc(Insert(x, sorted))
  {
    if sorted == [] || x.avgScore >= sorted[0].avgScore {
      if sorted != [] {
        ConsSorted(x, sorted);
      }
    } else {
      var rest := Insert(x, sorted[1..]);
      InsertSorted(x, sorted[1..]);
      assert rest[0].avgScore <= sorted[0].avgScore by {
        if rest[0] != x {
          assert rest[0] == sorted[1];
        }
      }
      ConsSorted(sorted[0], rest);
    }
  }

  /** A head no lower than the first entry extends a descending sequence. */
  lemma ConsSorted(h: UserPerformance, s: seq<UserPerformance>)
    requires SortedDesc(s) && s != []
    requires s[0].avgScore <= h.avgScore
    ensures SortedDesc([h] + s)
  {
    var r := [h] + s;
    forall i, j | 0 <= i < j < |r|
      ensures r[i].avgScore >= r[j].avgScore
    {
      assert r[j] == s[j - 1];
      if i > 0 {
        assert r[i] == s[i - 1];
      } else {
        assert s[0].avgScore >= s[j - 1].avgScore;
      }
    }
  }

  predicate SortedDesc(s: seq<UserPerformance>) {
    forall i, j :: 0 <= i < j < |s| ==> s[i].avgScore >= s[j].avgScore
  }

  /** `sort((a, b) => b.avg_score - a.avg_score)`, a stable sort by descending score. */
  function SortByScoreDesc(s: seq<UserPerformance>): (r: seq<UserPerformance>)
    ensures multiset(r) == multiset(s)
    ensures SortedDesc(r)
  {
    if s == [] then []
    else
      assert s == [s[0]] + s[1..];
      InsertSorted(s[0], SortByScoreDesc(s[1..]));
      Insert(s[0], SortByScoreDesc(s[1..]))
  }

  /** `topPerformers`. */
  function TopPerformers(users: seq<UserPerformance>, tab: DepartmentKey): (r: seq<UserPerformance>)
    ensures |r| <= 3
    ensures forall m :: m in r ==> m in users && m.team == TeamName(tab)
    ensures SortedDesc(r)
  {
    var sorted := SortByScoreDesc(OfTeam(users, TeamName(tab)));
    var top := if |sorted| <= 3 then sorted else sorted[..3];
    assert forall m :: m in top ==> m in multiset(sorted);
    top
  }

  /** Nobody left out of the top three outscores anyone in it, and the top three are taken
      from the team without loss: fewer than three only when the team is smaller. */
  lemma TopPerformersAreTop(users: seq<UserPerformance>, tab: DepartmentKey)
    ensures var team := OfTeam(users, TeamName(tab));
            var top := TopPerformers(users, tab);
            && |top| == (if |team| < 3 then |team| else 3)
            && multiset(top) <= multiset(team)
            && forall x: UserPerformance :: x in multiset(team) - multiset(top) ==> forall t :: t in top ==> x.avgScore <= t.avgScore
  {
    var team := OfTeam(users, TeamName(tab));
    var sorted := SortByScoreDesc(team);
    var top := TopPerformers(users, tab);
    assert |sorted| == |team| by {
      assert |multiset(sorted)| == |multiset(team)|;
    }
    if |sorted| > 3 {
      var rest := sorted[3..];
      assert sorted == top + rest;
      assert multiset(team) - multiset(top) == multiset(rest);
      RestBelowPrefix(sorted, 3);
    } else {
      assert top == sorted;
    }
  }

  /** In a descending sequence, nothing after position `k` outscores anything before it. */
  lemma RestBelowPrefix(sorted: seq<UserPerformance>, k: nat)
    requires SortedDesc(sorted) && k <= |sorted|
    ensures forall x, t :: x in sorted[k..] && t in sorted[..k] ==> x.avgScore <= t.avgScore
  {
    forall x, t | x in sorted[k..] && t in sorted[..k]
      ensures x.avgScore <= t.avgScore
    {
      var j :| k <= j < |sorted| && sorted[j] == x;
      var i :| 0 <= i < k && sorted[i] == t;
    }
  }

  /** A tab and the number of users in its team. */
  datatype TabCount = TabCount(tab: TabOption, count: nat)

  /** `tabsWithCounts`; the tab list is the caller's (its constants file is not part of this
      model). */
  function TabsWithCounts(tabs: seq<TabOption>, users: seq<UserPerformance>): (r: seq<TabCount>)
    ensures |r| == |tabs|
    ensures forall i :: 0 <= i < |tabs| ==> r[i].tab == tabs[i] && r[i].count == |OfTeam(users, TeamName(tabs[i].id))|
  {
    seq(|tabs|, i requires 0 <= i < |tabs| => TabCount(tabs[i], |OfTeam(users, TeamName(tabs[i].id))|))
  }

  /** The members of no department. */
  function OutsideDepartments(users: seq<UserPerformance>): seq<UserPerformance> {
    if users == [] then []
    else (if users[0].team !in {"Sales", "Executive", "Engineering"} then [users[0]] else []) + OutsideDepartments(users[1..])
  }

  /** The three department counts and the users of no department account for every user
      exactly once. */
  lemma {:induction false} CountsPartitionUsers(users: seq<UserPerformance>)
    ensures |OfTeam(users, TeamName(Sales))| + |OfTeam(users, TeamName(Executive))|
            + |OfTeam(users, TeamName(Engineering))| + |OutsideDepartments(users)| == |users|
  {
    if users != [] {
      CountsPartitionUsers(users[1..]);
    }
  }

  /** The sessions page's team filter offers exactly the three department teams, in tab order. */
  lemma TeamFilterOptionsAreDepartments()
    ensures Constants.TEAM_FILTER_OPTIONS == [TeamName(Sales), TeamName(Executive), TeamName(Engineering)]
    ensures forall k: DepartmentKey :: TeamName(k) in Constants.TEAM_FILTER_OPTIONS
    ensures forall t :: t in Constants.TEAM_FILTER_OPTIONS ==> exists k: DepartmentKey :: TeamName(k) == t
  {
    assert TeamName(Sales) == Constants.TEAM_FILTER_OPTIONS[0];
    assert TeamName(Executive) == Constants.TEAM_FILTER_OPTIONS[1];
    assert TeamName(Engineering) == Constants.TEAM_FILTER_OPTIONS[2];
  }
}
