/**
 * Where the site's home address sends a visitor
 * (`HomepageRedirectView.get_redirect_url`, collabl/collabl/base/views.py).
 */
module Home {
  import opened Wrappers
  import opened Memberships

  /** The three URL names the home address can redirect to. */
  datatype Target = Landing | UserGroupList | GroupSearch
  {
    function Name(): string {
      match this
      case Landing => "landing"
      case UserGroupList => "user-group-list"
      case GroupSearch => "group-search"
    }
  }

  /** The user holds at least one Current or Admin row, in any group. */
  predicate HasActiveGroup(rows: seq<Membership>, user: UserId) {
    exists i :: 0 <= i < |rows| && rows[i].user == user && (rows[i].status == Current || rows[i].status == Admin)
  }

  /**
   * `None` is an anonymous visitor. A signed-in user with an active membership
   * goes to their group list, any other signed-in user to the group search.
   */
  function HomepageRedirect(visitor: Option<UserId>, rows: seq<Membership>): (r: Target)
    ensures visitor.None? <==> r == Landing
    ensures visitor.Some? ==> (r == UserGroupList <==> HasActiveGroup(rows, visitor.value))
    ensures visitor.Some? ==> (r == GroupSearch <==>
              forall i :: 0 <= i < |rows| && rows[i].user == visitor.value ==>
                rows[i].status == Pending || rows[i].status == Ignored)
    ensures r.Name() in {"landing", "user-group-list", "group-search"}
  {
    match visitor
    case Some(user) => if HasActiveGroup(rows, user) then UserGroupList else GroupSearch
    case None => Landing
  }

  /** A user whose memberships are all Pending or Ignored, or who has none, is sent to the search. */
  lemma InactiveUserSearches(user: UserId, rows: seq<Membership>)
    requires forall i :: 0 <= i < |rows| ==> rows[i].user != user || rows[i].status in {Pending, Ignored}
    ensures HomepageRedirect(Some(user), rows) == GroupSearch
  {
  }

  /** Joining a group (a Pending row) never changes where the home address sends a user. */
  lemma JoinKeepsHomeTarget(visitor: Option<UserId>, rows: seq<Membership>, user: UserId, group: GroupId)
    ensures HomepageRedirect(visitor, rows + [PendingRow(user, group)]) == HomepageRedirect(visitor, rows)
  {
    if visitor.Some? {
      var r := rows + [PendingRow(user, group)];
      if HasActiveGroup(r, visitor.value) {
        var i :| 0 <= i < |r| && r[i].user == visitor.value && (r[i].status == Current || r[i].status == Admin);
        assert i < |rows| && r[i] == rows[i];
      }
      if HasActiveGroup(rows, visitor.value) {
        var i :| 0 <= i < |rows| && rows[i].user == visitor.value && (rows[i].status == Current || rows[i].status == Admin);
        assert r[i] == rows[i];
      }
    }
  }
}
