/**
 * Group memberships: the Membership table, the join and leave views, and the
 * filter behind the group search page (collabl/groups/views.py), with the
 * membership statuses of collabl/groups/constants.py.
 */
module Memberships {
  import opened Wrappers

  type UserId = nat
  type GroupId = nat

  /** The four membership statuses. */
  datatype Status = Admin | Pending | Current | Ignored

  /** One row of the Membership table: a user's standing in a group. */
  datatype Membership = Membership(user: UserId, group: GroupId, status: Status)

  /** A group as the search page sees it. */
  datatype Group = Group(id: GroupId, name: string)

  // ---------------------------------------------------------------------------
  // Permission helpers. Their bodies live in groups/utils.py, which is not part
  // of this model; here they are predicates over the caller's standing in the
  // group (None when the caller has no row there).
  // ---------------------------------------------------------------------------

  /** `user_has_active_membership`: a Current or Admin row. */
  predicate HasActiveMembership(standing: Option<Status>) {
    standing == Some(Current) || standing == Some(Admin)
  }

  /** `user_is_admin`: an Admin row. */
  predicate IsAdmin(standing: Option<Status>) {
    standing == Some(Admin)
  }

  // ---------------------------------------------------------------------------
  // Queries over the table
  // ---------------------------------------------------------------------------

  predicate RowFor(m: Membership, user: UserId, group: GroupId) {
    m.user == user && m.group == group
  }

  /** `Membership.objects.filter(user=user, group=group)` is non-empty. */
  predicate HasRow(rows: seq<Membership>, user: UserId, group: GroupId) {
    exists i :: 0 <= i < |rows| && RowFor(rows[i], user, group)
  }

  /** At most one row per (user, group) pair. */
  predicate UniquePairs(rows: seq<Membership>) {
    forall i, j :: 0 <= i < j < |rows| ==> !RowFor(rows[j], rows[i].user, rows[i].group)
  }

  /** The position of the first row for the pair. */
  function IndexOf(rows: seq<Membership>, user: UserId, group: GroupId): (i: nat)
    requires HasRow(rows, user, group)
    ensures i < |rows| && RowFor(rows[i], user, group)
    ensures forall j :: 0 <= j < i ==> !RowFor(rows[j], user, group)
  {
    if RowFor(rows[0], user, group) then 0
    else
      assert HasRow(rows[1..], user, group) by {
        var k :| 0 <= k < |rows| && RowFor(rows[k], user, group);
        assert rows[1..][k - 1] == rows[k];
      }
      IndexOf(rows[1..], user, group) + 1
  }

  /** The caller's status in the group, or None without a row. */
  function StandingOf(rows: seq<Membership>, user: UserId, group: GroupId): (s: Option<Status>)
    ensures s.None? <==> !HasRow(rows, user, group)
    ensures s.Some? ==> exists i :: 0 <= i < |rows| && rows[i] == Membership(user, group, s.value)
  {
    if HasRow(rows, user, group) then
      var i := IndexOf(rows, user, group);
      assert rows[i] == Membership(user, group, rows[i].status);
      Some(rows[i].status)
    else None
  }

  /** With one row per pair, the standing is the status of that row. */
  lemma StandingOfUnique(rows: seq<Membership>, i: nat)
    requires UniquePairs(rows) && i < |rows|
    ensures StandingOf(rows, rows[i].user, rows[i].group) == Some(rows[i].status)
  {
    var k := IndexOf(rows, rows[i].user, rows[i].group);
  }

  /** Some row of the group has status Admin. */
  predicate HasAdmin(rows: seq<Membership>, group: GroupId) {
    exists j :: 0 <= j < |rows| && rows[j].group == group && rows[j].status == Admin
  }

  /**
   * The row at `i` is an Admin row and no OTHER row of its group is Admin
   * (the Admin rows of the group, excluding this row's primary key, do not exist).
   */
  predicate IsLastAdmin(rows: seq<Membership>, i: nat): (b: bool)
    requires i < |rows|
    ensures b <==> rows[i].status == Admin && !HasAdmin(RemoveAt(rows, i), rows[i].group)
  {
    var r := RemoveAt(rows, i);
    assert forall k :: 0 <= k < |r| ==> r[k] == rows[if k < i then k else k + 1];
    assert forall j :: 0 <= j < |rows| && j != i ==> rows[j] == r[if j < i then j else j - 1];

    rows[i].status == Admin &&
    !exists j :: 0 <= j < |rows| && j != i && rows[j].group == rows[i].group && rows[j].status == Admin
  }

  /** The table with the row at `i` deleted. */
  function RemoveAt(rows: seq<Membership>, i: nat): (r: seq<Membership>)
    requires i < |rows|
    ensures |r| == |rows| - 1
    ensures multiset(r) == multiset(rows) - multiset{rows[i]}
  {
    assert rows == rows[..i] + [rows[i]] + rows[i + 1..];
    rows[..i] + rows[i + 1..]
  }

  /** The row a join request inserts. */
  function PendingRow(user: UserId, group: GroupId): (m: Membership)
    ensures RowFor(m, user, group) && m.status == Pending
  {
    Membership(user, group, Pending)
  }

  // ---------------------------------------------------------------------------
  // Properties of join and leave on the table
  // ---------------------------------------------------------------------------

  /** Appending a row for a pair that had none keeps one row per pair. */
  lemma AppendKeepsUnique(rows: seq<Membership>, m: Membership)
    requires UniquePairs(rows) && !HasRow(rows, m.user, m.group)
    ensures UniquePairs(rows + [m])
  {
    var r := rows + [m];
    forall i, j | 0 <= i < j < |r| ensures !RowFor(r[j], r[i].user, r[i].group) {
      if j == |rows| {
        assert r[i] == rows[i];
        if RowFor(r[j], r[i].user, r[i].group) {
          assert RowFor(rows[i], m.user, m.group);
        }
      } else {
        assert r[i] == rows[i] && r[j] == rows[j];
      }
    }
  }

  /**
   * After a join for a pair without a row, the joiner is Pending in the group
   * and every other pair keeps its standing.
   */
  lemma {:induction false} JoinedStanding(rows: seq<Membership>, user: UserId, group: GroupId, u: UserId, g: GroupId)
    requires !HasRow(rows, user, group)
    ensures StandingOf(rows + [PendingRow(user, group)], u, g) ==
            if u == user && g == group then Some(Pending) else StandingOf(rows, u, g)
  {
    var r := rows + [PendingRow(user, group)];
    if u == user && g == group {
      assert HasRow(r, u, g) by { assert RowFor(r[|rows|], u, g); }
    } else if HasRow(rows, u, g) {
      var k := IndexOf(rows, u, g);
      assert r[k] == rows[k];
      assert HasRow(r, u, g);
      var k' := IndexOf(r, u, g);
      assert k' <= k;
      assert r[k'] == rows[k'];
    }
  }

  /** Deleting one row keeps one row per pair and leaves the deleted pair without a row. */
  lemma RemoveAtKeepsUnique(rows: seq<Membership>, i: nat)
    requires UniquePairs(rows) && i < |rows|
    ensures UniquePairs(RemoveAt(rows, i))
    ensures !HasRow(RemoveAt(rows, i), rows[i].user, rows[i].group)
  {
    var r := RemoveAt(rows, i);
    assert forall k :: 0 <= k < |r| ==> r[k] == rows[if k < i then k else k + 1];
    forall k | 0 <= k < |r| ensures !RowFor(r[k], rows[i].user, rows[i].group) {
      if k < i {
        assert !RowFor(rows[i], rows[k].user, rows[k].group);
      }
    }
  }

  /**
   * The headline invariant of leaving: deleting a row that is not its group's
   * last Admin row keeps an Admin in every group that had one.
   */
  lemma {:induction false} RemoveKeepsAdmin(rows: seq<Membership>, i: nat, group: GroupId)
    requires i < |rows| && !IsLastAdmin(rows, i) && HasAdmin(rows, group)
    ensures HasAdmin(RemoveAt(rows, i), group)
  {
    var r := RemoveAt(rows, i);
    var j :| 0 <= j < |rows| && rows[j].group == group && rows[j].status == Admin;
    if j == i {
      j :| 0 <= j < |rows| && j != i && rows[j].group == rows[i].group && rows[j].status == Admin;
    }
    var j' := if j < i then j else j - 1;
    assert r[j'] == rows[j];
  }

  /** The outcome of `group_join_view`; `GroupNotFound` is the 404 of `get_object_or_404(Group, ...)`. */
  datatype JoinOutcome = GroupNotFound | AlreadyRequested | Requested

  /** The outcome of `group_leave_view`; `GroupNotFound` is the 404 of `get_object_or_404(Group, ...)`. */
  datatype LeaveOutcome = GroupNotFound | NotAMember | LastAdmin | Left

  /**
   * The Membership table, mutated in place by the join and leave views,
   * together with the keys of the existing groups, which these views only read.
   */
  class MembershipTable {
    var groups: set<GroupId>
    var rows: seq<Membership>

    ghost predicate Valid()
      reads this
    {
      UniquePairs(rows)
    }

    constructor (groups: set<GroupId>, initial: seq<Membership>)
      requires UniquePairs(initial)
      ensures Valid() && this.groups == groups && rows == initial
    {
      this.groups := groups;
      rows := initial;
    }

    /**
     * Request to join: an unknown group is not found; the request is refused
     * whenever any row exists for the pair, whatever its status; otherwise one
     * Pending row is inserted.
     */
    method Join(user: UserId, group: GroupId) returns (outcome: JoinOutcome)
      requires Valid()
      modifies this
      ensures Valid() && groups == old(groups)
      ensures group !in groups ==> outcome == JoinOutcome.GroupNotFound && rows == old(rows)
      ensures group in groups && HasRow(old(rows), user, group) ==>
                outcome == AlreadyRequested && rows == old(rows)
      ensures group in groups && !HasRow(old(rows), user, group) ==>
                outcome == Requested && rows == old(rows) + [PendingRow(user, group)]
      ensures group in groups ==> StandingOf(rows, user, group).Some?
    {
      if group !in groups {
        outcome := JoinOutcome.GroupNotFound;
        return;
      }
      if HasRow(rows, user, group) {
        outcome := AlreadyRequested;
        return;
      }
      AppendKeepsUnique(rows, PendingRow(user, group));
      rows := rows + [PendingRow(user, group)];
      assert RowFor(rows[|rows| - 1], user, group);
      outcome := Requested;
    }

    /**
     * Leave a group: an unknown group is not found; nothing happens for a user
     * without a row; the last Admin is refused and keeps the row; otherwise
     * exactly the caller's row is deleted.
     */
    method Leave(user: UserId, group: GroupId) returns (outcome: LeaveOutcome)
      requires Valid()
      modifies this
      ensures Valid() && groups == old(groups)
      ensures group !in groups ==> outcome == LeaveOutcome.GroupNotFound && rows == old(rows)
      ensures group in groups && !HasRow(old(rows), user, group) ==>
                outcome == NotAMember && rows == old(rows)
      ensures group in groups && HasRow(old(rows), user, group) &&
              IsLastAdmin(old(rows), IndexOf(old(rows), user, group)) ==>
                outcome == LastAdmin && rows == old(rows)
      ensures group in groups && HasRow(old(rows), user, group) &&
              !IsLastAdmin(old(rows), IndexOf(old(rows), user, group)) ==>
                outcome == Left && rows == RemoveAt(old(rows), IndexOf(old(rows), user, group))
      ensures outcome == Left ==> !HasRow(rows, user, group)
      ensures forall g :: HasAdmin(old(rows), g) ==> HasAdmin(rows, g)
    {
      if group !in groups {
        outcome := LeaveOutcome.GroupNotFound;
        return;
      }
      if !HasRow(rows, user, group) {
        outcome := NotAMember;
        return;
      }
      var i := IndexOf(rows, user, group);
      if IsLastAdmin(rows, i) {
        outcome := LastAdmin;
        return;
      }
      forall g | HasAdmin(rows, g) ensures HasAdmin(RemoveAt(rows, i), g) {
        RemoveKeepsAdmin(rows, i, g);
      }
      RemoveAtKeepsUnique(rows, i);
      rows := RemoveAt(rows, i);
      outcome := Left;
    }
  }

  // ---------------------------------------------------------------------------
  // Group search
  // ---------------------------------------------------------------------------

  /** The statuses whose groups the search page leaves out. */
  predicate HiddenFromSearch(s: Status) {
    s == Current || s == Admin || s == Pending
  }

  /** The user holds a Current, Admin or Pending row in the group. */
  predicate Excluded(rows: seq<Membership>, user: UserId, group: GroupId) {
    exists i :: 0 <= i < |rows| && RowFor(rows[i], user, group) && HiddenFromSearch(rows[i].status)
  }

  /** `Group.objects.exclude(pk__in=membership_list)`, in table order. */
  function ExcludeJoined(groups: seq<Group>, rows: seq<Membership>, user: UserId): (r: seq<Group>)
    ensures |r| <= |groups|
    ensures forall g :: g in r <==> g in groups && !Excluded(rows, user, g.id)
  {
    if groups == [] then []
    else
      var rest := ExcludeJoined(groups[1..], rows, user);
      assert forall g :: g in groups <==> g == groups[0] || g in groups[1..];
      if Excluded(rows, user, groups[0].id) then rest else [groups[0]] + rest
  }

  /** ASCII case folding, as the database applies for a case-insensitive match. */
  function Lower(c: char): char {
    if 'A' <= c <= 'Z' then (c as int + 32) as char else c
  }

  function LowerString(s: string): (r: string)
    ensures |r| == |s|
  {
    seq(|s|, k requires 0 <= k < |s| => Lower(s[k]))
  }

  /** `t` occurs in `s` as a contiguous substring. */
  function Contains(s: string, t: string): bool
    decreases |s|
  {
    if |t| > |s| then false
    else s[..|t|] == t || (|s| > 0 && Contains(s[1..], t))
  }

  /** `t` occurs in `s` starting at index `k`. */
  predicate OccursAt(s: string, t: string, k: int) {
    0 <= k <= |s| - |t| && s[k..k + |t|] == t
  }

  /** Contains agrees with the positional definition of a substring. */
  lemma {:induction false} ContainsAt(s: string, t: string)
    ensures Contains(s, t) <==> exists k :: OccursAt(s, t, k)
    decreases |s|
  {
    if |t| > |s| {
    } else if s[..|t|] == t {
      assert OccursAt(s, t, 0);
    } else if |s| > 0 {
      ContainsAt(s[1..], t);
      if Contains(s[1..], t) {
        var k :| OccursAt(s[1..], t, k);
        assert s[k + 1..k + 1 + |t|] == s[1..][k..k + |t|];
        assert OccursAt(s, t, k + 1);
      } else {
        forall k | OccursAt(s, t, k) ensures false {
          if k > 0 {
            assert s[1..][k - 1..k - 1 + |t|] == s[k..k + |t|];
            assert OccursAt(s[1..], t, k - 1);
          }
        }
      }
    }
  }

  /** `name__icontains=query`. */
  predicate ContainsIgnoringCase(name: string, query: string) {
    Contains(LowerString(name), LowerString(query))
  }

  /** An empty query string is contained in every name. */
  lemma EmptyQueryMatchesAll(name: string)
    ensures ContainsIgnoringCase(name, "")
  {
    assert LowerString(name)[..0] == LowerString("");
  }

  /** `groups.filter(name__icontains=query)`, in order. */
  function FilterByName(groups: seq<Group>, query: string): (r: seq<Group>)
    ensures |r| <= |groups|
    ensures forall g :: g in r <==> g in groups && ContainsIgnoringCase(g.name, query)
  {
    if groups == [] then []
    else
      var rest := FilterByName(groups[1..], query);
      assert forall g :: g in groups <==> g == groups[0] || g in groups[1..];
      if ContainsIgnoringCase(groups[0].name, query) then [groups[0]] + rest else rest
  }

  /** The query string applies only when it is present and non-empty. */
  predicate QueryApplies(query: Option<string>) {
    query.Some? && query.value != ""
  }

  /** `GroupSearchView.get_queryset`: the groups the user is not part of, optionally filtered by name. */
  function SearchGroups(groups: seq<Group>, rows: seq<Membership>, user: UserId, query: Option<string>): (r: seq<Group>)
    ensures forall g :: g in r <==>
              g in groups && !Excluded(rows, user, g.id) &&
              (QueryApplies(query) ==> ContainsIgnoringCase(g.name, query.value))
  {
    var candidates := ExcludeJoined(groups, rows, user);
    if QueryApplies(query) then FilterByName(candidates, query.value) else candidates
  }

  /** A group where the user's only row is Ignored is still offered by the search. */
  lemma IgnoredStillListed(groups: seq<Group>, rows: seq<Membership>, user: UserId, g: Group, query: Option<string>)
    requires UniquePairs(rows)
    requires g in groups && StandingOf(rows, user, g.id) == Some(Ignored)
    requires QueryApplies(query) ==> ContainsIgnoringCase(g.name, query.value)
    ensures g in SearchGroups(groups, rows, user, query)
  {
  }

  /** A group where the user holds a Current, Admin or Pending row never appears. */
  lemma JoinedNeverListed(groups: seq<Group>, rows: seq<Membership>, user: UserId, g: Group, query: Option<string>)
    requires StandingOf(rows, user, g.id).Some? && HiddenFromSearch(StandingOf(rows, user, g.id).value)
    ensures g !in SearchGroups(groups, rows, user, query)
  {
    var i :| 0 <= i < |rows| && rows[i] == Membership(user, g.id, StandingOf(rows, user, g.id).value);
    assert RowFor(rows[i], user, g.id);
  }
}
