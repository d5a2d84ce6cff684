/** The gate `WebGetter.debounce` applies: a trigger passes when more than a second has gone by. */
module Debouncer {

  /** `debounce_interval`, in milliseconds. */
  const INTERVAL: int := 1000

  /** The gate passes a trigger at `now` when the last accepted one was at `last`. */
  predicate Accepts(last: int, now: int) {
    now - last > INTERVAL
  }

  /** The triggers the gate passes, in order, from a sequence of trigger times. */
  function AcceptedTimes(last: int, times: seq<int>): (r: seq<int>)
    ensures |r| <= |times|
    ensures forall t :: t in r ==> t in times
    decreases |times|
  {
    if times == [] then []
    else if Accepts(last, times[0]) then [times[0]] + AcceptedTimes(times[0], times[1..])
    else AcceptedTimes(last, times[1..])
  }

  /**
   * Whatever the trigger times, two accepted triggers are more than an interval apart,
   * and the first is more than an interval after the initial state: at most one grab
   * cycle per window.
   */
  lemma {:induction false} AcceptedSpaced(last: int, times: seq<int>)
    ensures var a := AcceptedTimes(last, times);
      && (|a| > 0 ==> a[0] - last > INTERVAL)
      && forall k :: 0 < k < |a| ==> a[k] - a[k - 1] > INTERVAL
    decreases |times|
  {
    if times != [] {
      if Accepts(last, times[0]) {
        AcceptedSpaced(times[0], times[1..]);
      } else {
        AcceptedSpaced(last, times[1..]);
      }
    }
  }

  /**
   * After an accepted trigger at t, every later trigger within an interval of t is
   * refused, however many of them come.
   */
  lemma {:induction false} WithinWindowRefused(last: int, t: int, rest: seq<int>)
    requires Accepts(last, t)
    requires forall k :: 0 <= k < |rest| ==> rest[k] - t <= INTERVAL
    ensures AcceptedTimes(last, [t] + rest) == [t]
  {
    assert ([t] + rest)[1..] == rest;
    NoneWithin(t, rest);
  }

  lemma {:induction false} NoneWithin(t: int, rest: seq<int>)
    requires forall k :: 0 <= k < |rest| ==> rest[k] - t <= INTERVAL
    ensures AcceptedTimes(t, rest) == []
    decreases |rest|
  {
    if rest != [] {
      NoneWithin(t, rest[1..]);
    }
  }

  /** Two triggers half a second apart, then one a second later: passed, refused, passed. */
  lemma ThreeTriggers()
    ensures AcceptedTimes(0, [2000, 2500, 3001]) == [2000, 3001]
  {
    assert [2000, 2500, 3001][1..] == [2500, 3001];
    assert [2500, 3001][1..] == [3001];
  }
}
