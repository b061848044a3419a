/**
 * The "employee of the month" podium: the first three users carrying the
 * flag, in list order, shown second-first-third.
 */
module EmployeeOfMonth {
  import opened Wrappers
  import opened Tables
  import opened Schema

  const PodiumSize := 3

  function IsFlagged(u: User): bool { u.isEmployeeOfMonth }

  /**
   * `users?.filter(u => u.isEmployeeOfMonth).slice(0, 3) || []`: at most three
   * flagged users, the first ones of the list in its order.
   */
  function Winners(users: Option<seq<User>>): (r: seq<User>)
    ensures users.None? ==> r == []
    ensures |r| <= PodiumSize
    ensures forall i :: 0 <= i < |r| ==> r[i].isEmployeeOfMonth && r[i] in users.value
    ensures users.Some? ==> r <= Filter(users.value, IsFlagged)
    ensures users.Some? && |Filter(users.value, IsFlagged)| <= PodiumSize ==> r == Filter(users.value, IsFlagged)
  {
    if users.None? then [] else Take(Filter(users.value, IsFlagged), PodiumSize)
  }

  /** A flagged user left off the podium means the podium is full. */
  lemma PassedOverOnlyWhenFull(users: seq<User>, u: User)
    requires u in users && u.isEmployeeOfMonth && u !in Winners(Some(users))
    ensures |Winners(Some(users))| == PodiumSize
  {
    var flagged := Filter(users, IsFlagged);
    var j :| 0 <= j < |users| && users[j] == u;
    assert IsFlagged(users[j]);
    assert u in flagged;
  }

  /** The winners come out in the order of the list: a winner listed later never stands higher. */
  lemma {:induction false} WinnersInListOrder(users: seq<User>, i: nat, j: nat)
    requires i < j < |Winners(Some(users))|
    ensures exists a, b :: 0 <= a < b < |users| && users[a] == Winners(Some(users))[i] && users[b] == Winners(Some(users))[j]
  {
    FilterOrder(users, IsFlagged, i, j);
  }

  /** What the section renders: nothing, or the three places, each possibly empty. */
  datatype Section = NoSection | Podium(first: User, second: Option<User>, third: Option<User>)

  function Place(winners: seq<User>, i: nat): Option<User>
  {
    if i < |winners| then Some(winners[i]) else None
  }

  /** The section: nothing without winners, else `winners[0]` first, `[1]` second and `[2]` third. */
  function Render(users: Option<seq<User>>): (r: Section)
    ensures r.NoSection? <==> Winners(users) == []
    ensures r.Podium? ==> r.first == Winners(users)[0]
    ensures r.Podium? ==> (r.second.Some? <==> |Winners(users)| >= 2) && (r.second.Some? ==> r.second.value == Winners(users)[1])
    ensures r.Podium? ==> (r.third.Some? <==> |Winners(users)| == 3) && (r.third.Some? ==> r.third.value == Winners(users)[2])
  {
    var winners := Winners(users);
    if |winners| == 0 then NoSection else Podium(winners[0], Place(winners, 1), Place(winners, 2))
  }
}
