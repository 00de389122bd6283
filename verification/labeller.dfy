/**
 * The labelling loops of check_for_user_activity_over_time_period: for each
 * user, in order of first appearance, scan that user's consecutive triples of
 * active days and append one (user, label) row to the result table.
 */
module Labeller {
  import opened Bucketing
  import opened Window

  /** One row of the result table: a user and its class value (1 adopted, 0 not). */
  datatype AdoptionRow<U> = AdoptionRow(user: U, adoption: int)

  /** The label the rule gives a user with these ascending active days. */
  function LabelOf(days: seq<int>, period: int): int {
    if Adopted(days, period) then 1 else 0
  }

  /** The inner loop for one user: returns the rows it appends (none when the
      user has no active day, otherwise exactly one); `windows` traces how
      many windows it examined before stopping. */
  method ScanUser<U>(user: U, days: seq<int>, period: int) returns (rows: seq<AdoptionRow<U>>, ghost windows: nat)
    ensures |days| == 0 ==> rows == []
    ensures |days| > 0 ==> rows == [AdoptionRow(user, LabelOf(days, period))]
    ensures |days| < 3 ==> windows == 0
    ensures |days| >= 3 ==> 1 <= windows <= |days| - 2
    ensures forall j :: 0 <= j < windows - 1 ==> !WindowFits(days, j, period)
    ensures Adopted(days, period) ==> 0 < windows && WindowFits(days, windows - 1, period)
    ensures |days| >= 3 && !Adopted(days, period) ==> windows == |days| - 2
  {
    rows, windows := [], 0;
    var n := |days|;
    var i := 0;
    while i < n
      invariant 0 <= i <= n
      invariant i > 0 ==> i + 3 <= n
      invariant rows == [] && windows == i
      invariant forall j :: 0 <= j < i ==> !WindowFits(days, j, period)
    {
      if i + 3 <= n {
        windows := windows + 1;
        if i + 3 == n {
          // the last window decides
          if days[i + 2] - days[i] <= period {
            assert WindowFits(days, i, period);
            rows := rows + [AdoptionRow(user, 1)];
            break;
          } else {
            rows := rows + [AdoptionRow(user, 0)];
            break;
          }
        } else if i + 3 < n {
          if days[i + 2] - days[i] <= period {
            assert WindowFits(days, i, period);
            rows := rows + [AdoptionRow(user, 1)];
            break;
          }
        }
      } else if i + 3 > n {
        // fewer than three active days
        rows := rows + [AdoptionRow(user, 0)];
        break;
      }
      i := i + 1;
    }
  }

  /** The whole labeller: one row per distinct user of the table, in order of
      first appearance, labelled by the window rule over that user's active
      days. */
  method LabelUsers<U(==,!new)>(events: seq<Event<U>>, period: int := 7) returns (adopted: seq<AdoptionRow<U>>)
    ensures forall k :: 0 <= k < |adopted| ==> adopted[k].user in UsersOf(events)
    ensures forall u :: u in UsersOf(events) ==> exists k :: 0 <= k < |adopted| && adopted[k].user == u
    ensures forall i, j :: 0 <= i < j < |adopted| ==> adopted[i].user != adopted[j].user
    ensures forall i, j :: 0 <= i < j < |adopted| ==>
      FirstIndex(events, adopted[i].user) < FirstIndex(events, adopted[j].user)
    ensures forall k :: 0 <= k < |adopted| ==>
      adopted[k].adoption == LabelOf(ActiveDays(events, adopted[k].user), period)
  {
    var userIds := UniqueUsers(events);
    var dailyVisitors := DailyVisits(events);
    adopted := [];
    for k := 0 to |userIds|
      invariant |adopted| == k
      invariant forall m :: 0 <= m < k ==>
        adopted[m] == AdoptionRow(userIds[m], LabelOf(ActiveDays(events, userIds[m]), period))
    {
      var user := userIds[k];
      var visits := VisitDays(dailyVisitors, user);
      assert visits == ActiveDays(events, user) && |visits| > 0;
      ghost var windows;
      var rows;
      rows, windows := ScanUser(user, visits, period);
      adopted := adopted + rows;
    }
    RowsFollowUsers(events, period, adopted);
  }

  /** A table with one row per entry of the first-appearance user list,
      labelled by the rule, covers every user exactly once and in order. */
  lemma RowsFollowUsers<U(!new)>(events: seq<Event<U>>, period: int, adopted: seq<AdoptionRow<U>>)
    requires |adopted| == |UniqueUsers(events)|
    requires forall m :: 0 <= m < |adopted| ==>
      adopted[m] == AdoptionRow(UniqueUsers(events)[m], LabelOf(ActiveDays(events, UniqueUsers(events)[m]), period))
    ensures forall k :: 0 <= k < |adopted| ==> adopted[k].user in UsersOf(events)
    ensures forall u :: u in UsersOf(events) ==> exists k :: 0 <= k < |adopted| && adopted[k].user == u
    ensures forall i, j :: 0 <= i < j < |adopted| ==> adopted[i].user != adopted[j].user
    ensures forall i, j :: 0 <= i < j < |adopted| ==>
      FirstIndex(events, adopted[i].user) < FirstIndex(events, adopted[j].user)
    ensures forall k :: 0 <= k < |adopted| ==>
      adopted[k].adoption == LabelOf(ActiveDays(events, adopted[k].user), period)
  {
    var userIds := UniqueUsers(events);
    assert forall k :: 0 <= k < |adopted| ==> adopted[k].user == userIds[k];
    forall u | u in UsersOf(events)
      ensures exists k :: 0 <= k < |adopted| && adopted[k].user == u
    {
      var k :| 0 <= k < |userIds| && userIds[k] == u;
      assert adopted[k].user == u;
    }
  }

  /** The early stop on a concrete user: with days 1, 2, 6, 10 and a 7-day
      period the first window already fits, so the scan examines one window
      and labels the user 1. */
  method EarlyStopExample() returns (rows: seq<AdoptionRow<int>>, ghost windows: nat)
    ensures rows == [AdoptionRow(0, 1)]
    ensures windows == 1
  {
    WindowBoundaryExamples();
    rows, windows := ScanUser(0, [1, 2, 6, 10], 7);
  }
}
