/**
 * Day bucketing for the adoption labeller: the first half of
 * check_for_user_activity_over_time_period. The activity table is reduced to
 * one row per (calendar day, user), ordered by day, and each user's rows are
 * then read back as an ascending sequence of distinct active days.
 */
module Bucketing {

  /** Seconds in one calendar day. */
  const SecondsPerDay: int := 86400

  /** One row of the activity table: who was active, and when (seconds since
      the epoch, time-zone naive). The summed quantity columns are not kept. */
  datatype Event<U> = Event(user: U, time: int)

  /** One row of the grouped table: `user` was active on calendar day `day`. */
  datatype DailyVisit<U> = DailyVisit(day: int, user: U)

  /** The calendar day a timestamp falls on (truncation of the time of day). */
  function DayOf(time: int): (day: int)
    ensures day * SecondsPerDay <= time < (day + 1) * SecondsPerDay
  {
    time / SecondsPerDay
  }

  predicate StrictlyIncreasing(s: seq<int>) {
    forall i, j :: 0 <= i < j < |s| ==> s[i] < s[j]
  }

  predicate DaySorted<U>(rows: seq<DailyVisit<U>>) {
    forall i, j :: 0 <= i < j < |rows| ==> rows[i].day <= rows[j].day
  }

  predicate NoDuplicates<T(==)>(s: seq<T>) {
    forall i, j :: 0 <= i < j < |s| ==> s[i] != s[j]
  }

  /** The users that occur in the table. */
  function UsersOf<U(==,!new)>(events: seq<Event<U>>): set<U> {
    set e | e in events :: e.user
  }

  /** The (day, user) pairs that occur in the table. */
  function VisitsOf<U(==,!new)>(events: seq<Event<U>>): set<DailyVisit<U>> {
    set e | e in events :: DailyVisit(DayOf(e.time), e.user)
  }

  /** The calendar days on which user `u` has at least one row. */
  function ActiveDaySet<U(==,!new)>(events: seq<Event<U>>, u: U): set<int> {
    set e | e in events && e.user == u :: DayOf(e.time)
  }

  /** The position of the first row of user `u`. */
  function FirstIndex<U(==,!new)>(events: seq<Event<U>>, u: U): (k: nat)
    requires u in UsersOf(events)
    ensures k < |events| && events[k].user == u
    ensures forall m :: 0 <= m < k ==> events[m].user != u
    decreases |events|
  {
    var n := |events| - 1;
    assert events[n] in events;
    if u in UsersOf(events[..n]) then
      FirstIndex(events[..n], u)
    else
      assert forall m :: 0 <= m < n ==> events[m] in events[..n];
      n
  }

  /** The distinct users of the table, in order of first appearance
      (`unique()` on the user column). */
  function UniqueUsers<U(==,!new)>(events: seq<Event<U>>): (users: seq<U>)
    ensures forall u :: u in users <==> u in UsersOf(events)
    ensures forall i, j :: 0 <= i < j < |users| ==>
      FirstIndex(events, users[i]) < FirstIndex(events, users[j])
    ensures NoDuplicates(users)
  {
    if events == [] then []
    else
      var n := |events| - 1;
      var seen := UniqueUsers(events[..n]);
      assert events == events[..n] + [events[n]];
      assert UsersOf(events) == UsersOf(events[..n]) + {events[n].user};
      assert forall u :: u in UsersOf(events[..n]) ==> FirstIndex(events, u) == FirstIndex(events[..n], u) by {
        forall u | u in UsersOf(events[..n])
          ensures FirstIndex(events, u) == FirstIndex(events[..n], u)
        {
          FirstIndexOfPrefix(events, n, u);
        }
      }
      if events[n].user in seen then seen else seen + [events[n].user]
  }

  /** A user already present in a prefix is first seen at the same place. */
  lemma FirstIndexOfPrefix<U(!new)>(events: seq<Event<U>>, n: nat, u: U)
    requires n <= |events| && u in UsersOf(events[..n])
    ensures u in UsersOf(events)
    ensures FirstIndex(events, u) == FirstIndex(events[..n], u)
  {
    var k := FirstIndex(events[..n], u);
    assert events[..n][k] == events[k] && events[k] in events;
    assert forall m :: 0 <= m < k ==> events[..n][m] == events[m];
  }

  /** Adds the pair `v` to a day-ordered grouped table, unless it is already
      there, keeping the table ordered by day. */
  function InsertVisit<U(==,!new)>(v: DailyVisit<U>, rows: seq<DailyVisit<U>>): (r: seq<DailyVisit<U>>)
    requires DaySorted(rows) && NoDuplicates(rows)
    ensures DaySorted(r) && NoDuplicates(r)
    ensures forall w :: w in r <==> w in rows || w == v
  {
    if rows == [] then [v]
    else if rows[0] == v then rows
    else if v.day < rows[0].day then [v] + rows
    else
      var tail := InsertVisit(v, rows[1..]);
      assert forall w :: w in rows <==> w == rows[0] || w in rows[1..];
      assert forall w :: w in tail ==> rows[0].day <= w.day && w != rows[0] by {
        forall w | w in tail ensures rows[0].day <= w.day && w != rows[0] {
          if w != v {
            var m :| 0 <= m < |rows[1..]| && rows[1..][m] == w;
            assert rows[m + 1] == w;
          }
        }
      }
      var r := [rows[0]] + tail;
      assert forall j :: 0 < j < |r| ==> r[j] in tail;
      r
  }

  /** The grouped table (`groupby([dates, user]).sum().sort_index()`): one row
      per distinct (day, user) pair of the input, ordered by day. */
  function DailyVisits<U(==,!new)>(events: seq<Event<U>>): (rows: seq<DailyVisit<U>>)
    ensures DaySorted(rows) && NoDuplicates(rows)
    ensures forall v :: v in rows <==> v in VisitsOf(events)
  {
    if events == [] then []
    else
      var n := |events| - 1;
      assert events == events[..n] + [events[n]];
      assert VisitsOf(events) == VisitsOf(events[..n]) + {DailyVisit(DayOf(events[n].time), events[n].user)};
      InsertVisit(DailyVisit(DayOf(events[n].time), events[n].user), DailyVisits(events[..n]))
  }

  /** The days of user `u`'s rows of the grouped table, in table order
      (the per-user filter and its date column). */
  function VisitDays<U(==,!new)>(rows: seq<DailyVisit<U>>, u: U): (days: seq<int>)
    ensures forall d :: d in days <==> DailyVisit(d, u) in rows
    ensures DaySorted(rows) && NoDuplicates(rows) ==> StrictlyIncreasing(days)
  {
    if rows == [] then []
    else
      var tail := VisitDays(rows[1..], u);
      assert forall w :: w in rows <==> w == rows[0] || w in rows[1..];
      if rows[0].user == u then
        assert DaySorted(rows) && NoDuplicates(rows) ==> forall d :: d in tail ==> rows[0].day < d by {
          if DaySorted(rows) && NoDuplicates(rows) {
            forall d | d in tail ensures rows[0].day < d {
              var m :| 0 <= m < |rows[1..]| && rows[1..][m] == DailyVisit(d, u);
              assert rows[m + 1] == DailyVisit(d, u);
            }
          }
        }
        var days := [rows[0].day] + tail;
        assert forall j :: 0 < j < |days| ==> days[j] in tail;
        days
      else
        tail
  }

  /** A user's active days, ascending: the day sequence the window rule scans. */
  function ActiveDays<U(==,!new)>(events: seq<Event<U>>, u: U): (days: seq<int>)
    ensures StrictlyIncreasing(days)
    ensures forall d :: d in days <==> d in ActiveDaySet(events, u)
    ensures |days| > 0 <==> u in UsersOf(events)
  {
    var rows := DailyVisits(events);
    var days := VisitDays(rows, u);
    ActiveDaysMembership(events, u);
    days
  }

  /** The filtered days of the grouped table are exactly the user's active days. */
  lemma ActiveDaysMembership<U(!new)>(events: seq<Event<U>>, u: U)
    ensures forall d :: d in VisitDays(DailyVisits(events), u) <==> d in ActiveDaySet(events, u)
    ensures |VisitDays(DailyVisits(events), u)| > 0 <==> u in UsersOf(events)
  {
    var days := VisitDays(DailyVisits(events), u);
    forall d ensures d in days <==> d in ActiveDaySet(events, u) {
      if d in ActiveDaySet(events, u) {
        var e :| e in events && e.user == u && DayOf(e.time) == d;
        assert DailyVisit(DayOf(e.time), e.user) in VisitsOf(events);
      }
    }
    if u in UsersOf(events) {
      var e :| e in events && e.user == u;
      assert DayOf(e.time) in ActiveDaySet(events, u);
    }
    if |days| > 0 {
      assert days[0] in ActiveDaySet(events, u);
    }
  }

  /** Two ascending sequences with the same elements are equal. */
  lemma {:induction false} StrictlyIncreasingUnique(a: seq<int>, b: seq<int>)
    requires StrictlyIncreasing(a) && StrictlyIncreasing(b)
    requires forall x :: x in a <==> x in b
    ensures a == b
  {
    assert a != [] ==> a[0] in a && a[0] in b;
    assert b != [] ==> b[0] in b && b[0] in a;
    if a != [] && b != [] {
      assert a[0] == b[0];
      forall x ensures x in a[1..] <==> x in b[1..] {
        assert x in a <==> x == a[0] || x in a[1..];
        assert x in b <==> x == b[0] || x in b[1..];
      }
      StrictlyIncreasingUnique(a[1..], b[1..]);
      assert a == [a[0]] + a[1..];
      assert b == [b[0]] + b[1..];
    }
  }

  /** A user's active days depend only on that user's own rows, and not on
      their order nor on any other user's rows. */
  lemma ActiveDaysOwnRowsOnly<U(!new)>(events1: seq<Event<U>>, events2: seq<Event<U>>, u: U)
    requires forall e: Event<U> :: e.user == u ==> (e in events1 <==> e in events2)
    ensures ActiveDays(events1, u) == ActiveDays(events2, u)
  {
    assert ActiveDaySet(events1, u) == ActiveDaySet(events2, u);
    StrictlyIncreasingUnique(ActiveDays(events1, u), ActiveDays(events2, u));
  }
}
