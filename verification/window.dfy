/**
 * The adoption rule over one user's ascending active days: the user is
 * adopted when some three consecutive active days have their first and third
 * day at most `period` days apart (inclusive).
 */
module Window {
  import opened Bucketing

  /** The window of three consecutive active days starting at index `i`
      spans at most `period` days. */
  predicate WindowFits(days: seq<int>, i: int, period: int)
    requires 0 <= i && i + 2 < |days|
  {
    days[i + 2] - days[i] <= period
  }

  /** Some window of three consecutive active days fits in `period` days. */
  predicate Adopted(days: seq<int>, period: int) {
    exists i :: 0 <= i && i + 2 < |days| && WindowFits(days, i, period)
  }

  /** The intent of the rule: three distinct active days, the last at most
      `period` days after the first. */
  predicate ThreeDaysWithin(days: seq<int>, period: int) {
    exists a, b, c :: a in days && b in days && c in days && a < b < c && c - a <= period
  }

  /** Scanning consecutive triples of the ascending day sequence decides
      exactly whether any three distinct active days fit in the window. */
  lemma AdoptedIffThreeDaysWithin(days: seq<int>, period: int)
    requires StrictlyIncreasing(days)
    ensures Adopted(days, period) <==> ThreeDaysWithin(days, period)
  {
    if Adopted(days, period) {
      var i :| 0 <= i && i + 2 < |days| && WindowFits(days, i, period);
      assert days[i] in days && days[i + 1] in days && days[i + 2] in days;
    }
    if ThreeDaysWithin(days, period) {
      var a, b, c :| a in days && b in days && c in days && a < b < c && c - a <= period;
      var i :| 0 <= i < |days| && days[i] == a;
      var j :| 0 <= j < |days| && days[j] == b;
      var k :| 0 <= k < |days| && days[k] == c;
      assert i < j < k;
      assert days[i + 2] <= days[k];
      assert WindowFits(days, i, period);
    }
  }

  /** With fewer than three active days no window exists. */
  lemma FewerThanThreeDaysNotAdopted(days: seq<int>, period: int)
    requires |days| < 3
    ensures !Adopted(days, period)
  {
  }

  /** Three distinct days always span at least two days, so a period below
      two adopts nobody: the rule does not reject such periods, it labels
      every user 0. */
  lemma ShortPeriodAdoptsNobody(days: seq<int>, period: int)
    requires StrictlyIncreasing(days) && period < 2
    ensures !Adopted(days, period)
  {
    forall i | 0 <= i && i + 2 < |days|
      ensures !WindowFits(days, i, period)
    {
      assert days[i] < days[i + 1] < days[i + 2];
    }
  }

  /** More active days never turn an adopted user into a non-adopted one. */
  lemma MoreActiveDaysKeepAdoption(fewer: seq<int>, more: seq<int>, period: int)
    requires StrictlyIncreasing(fewer) && StrictlyIncreasing(more)
    requires forall d :: d in fewer ==> d in more
    requires Adopted(fewer, period)
    ensures Adopted(more, period)
  {
    AdoptedIffThreeDaysWithin(fewer, period);
    AdoptedIffThreeDaysWithin(more, period);
  }

  /** A longer period never turns an adopted user into a non-adopted one. */
  lemma LongerPeriodKeepsAdoption(days: seq<int>, period: int, longer: int)
    requires period <= longer && Adopted(days, period)
    ensures Adopted(days, longer)
  {
    var i :| 0 <= i && i + 2 < |days| && WindowFits(days, i, period);
    assert WindowFits(days, i, longer);
  }

  /** The boundary is inclusive: days 0, 3, 7 fit a 7-day period, days
      0, 5, 10 do not, and of days 1, 2, 6, 10 the first window fits. */
  lemma WindowBoundaryExamples()
    ensures Adopted([0, 3, 7], 7)
    ensures !Adopted([0, 5, 10], 7)
    ensures !Adopted([1, 2, 10], 7)
    ensures Adopted([1, 2, 6, 10], 7) && WindowFits([1, 2, 6, 10], 0, 7)
  {
    assert WindowFits([0, 3, 7], 0, 7);
    assert WindowFits([1, 2, 6, 10], 0, 7);
  }
}
