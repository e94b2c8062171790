/**
  How long to poll for: an average over the last five gaps between polls, clamped to a range that may change.
  Times are in microseconds, rates are given in milliseconds.
  */
module PollingMonitor {
  import opened Sequences

  const SLOTS: nat := 5
  const MILLI := 1000

  datatype Tracker = Tracker(min: int, max: int, average: int, current: int, last: int, gaps: seq<int>)

  function Max(a: int, b: int): int {
    if a < b then b else a
  }

  function Min(a: int, b: int): int {
    if b < a then b else a
  }

  /** Integer division as the machine does it: toward zero. */
  function Quotient(a: int, n: int): (q: int)
    requires n > 0
    ensures a >= 0 ==> q == a / n && q >= 0
    ensures a <= 0 ==> q <= 0
  {
    if a >= 0 then a / n else -((-a) / n)
  }

  /** The two rates, not negative and in order. */
  function Low(minRate: int, maxRate: int): (r: int) {
    Min(Max(0, minRate), Max(0, maxRate)) * MILLI
  }

  function High(minRate: int, maxRate: int): (r: int) {
    Max(Max(0, minRate), Max(0, maxRate)) * MILLI
  }

  function Start(minRate: int, maxRate: int, now: int): Tracker {
    var low := Low(minRate, maxRate);
    Tracker(low, High(minRate, maxRate), low, low, now, [low])
  }

  /** `changeTimeOutRates` */
  function Change(t: Tracker, minRate: int, maxRate: int): Tracker {
    var low, high := Low(minRate, maxRate), High(minRate, maxRate);
    t.(min := low, max := high, current := Min(Max(t.current, low), high))
  }

  function Sum(s: seq<int>): int {
    if s == [] then 0 else Sum(s[..|s| - 1]) + s[|s| - 1]
  }

  /** A full ring loses its oldest element. */
  function Pushed(gaps: seq<int>, gap: int): (r: seq<int>)
    requires 1 <= |gaps| <= SLOTS
    ensures 1 <= |r| <= SLOTS && r[|r| - 1] == gap
  {
    (if |gaps| == SLOTS then gaps[1..] else gaps) + [gap]
  }

  /** A quarter on top of the average, in whole milliseconds. */
  function Slower(average: int): int {
    average + Quotient(Quotient(average, MILLI), 4) * MILLI
  }

  /** `pollOccurred` */
  function Poll(t: Tracker, now: int): Tracker
    requires 1 <= |t.gaps| <= SLOTS
  {
    var gaps := Pushed(t.gaps, now - t.last);
    var avg := Quotient(Sum(gaps), |gaps|);
    var current := if avg < t.min then t.min else Min(Slower(avg), t.max);
    Tracker(t.min, t.max, avg, current, now, gaps)
  }

  predicate Abnormal(t: Tracker) {
    t.average > t.current
  }

  ghost predicate Valid(t: Tracker) {
    0 <= t.min <= t.current <= t.max && 1 <= |t.gaps| <= SLOTS
  }

  // ---------------------------------------------------------------- runs

  datatype Event = Polled(now: int) | Changed(minRate: int, maxRate: int)

  function Next(t: Tracker, e: Event): Tracker
    requires 1 <= |t.gaps| <= SLOTS
  {
    match e
    case Polled(now) => Poll(t, now)
    case Changed(minRate, maxRate) => Change(t, minRate, maxRate)
  }

  lemma {:induction false} StartValid(minRate: int, maxRate: int, now: int)
    ensures Valid(Start(minRate, maxRate, now)) && !Abnormal(Start(minRate, maxRate, now))
  {
  }

  /** Whatever the clock says and however the rates change, the current rate stays within them. */
  lemma {:induction false} NextValid(t: Tracker, e: Event)
    requires Valid(t)
    ensures Valid(Next(t, e))
  {
  }

  function Run(t: Tracker, es: seq<Event>): (r: Tracker)
    requires Valid(t)
    ensures Valid(r)
  {
    if es == [] then t
    else
      var before := Run(t, es[..|es| - 1]);
      NextValid(before, es[|es| - 1]);
      Next(before, es[|es| - 1])
  }

  /** Right after a poll, an abnormal event is reported exactly when the average exceeds the maximum. */
  lemma {:induction false} AbnormalAfterPoll(t: Tracker, now: int)
    requires Valid(t)
    ensures Abnormal(Poll(t, now)) <==> Poll(t, now).average > t.max
  {
  }

  /** When the last poll of a run was. */
  function LastPoll(last: int, es: seq<Event>): (r: int) {
    if es == [] then last
    else if es[|es| - 1].Polled? then es[|es| - 1].now
    else LastPoll(last, es[..|es| - 1])
  }

  /** The gaps that the polls of a run leave behind, the earliest first. */
  function GapsOf(last: int, es: seq<Event>): (r: seq<int>) {
    if es == [] then []
    else
      var init, e := es[..|es| - 1], es[|es| - 1];
      GapsOf(last, init) + (if e.Polled? then [e.now - LastPoll(last, init)] else [])
  }

  function LastFive(s: seq<int>): seq<int> {
    if |s| <= SLOTS then s else s[|s| - SLOTS..]
  }

  lemma {:induction false} PushLast(s: seq<int>, gap: int)
    requires s != []
    ensures Pushed(LastFive(s), gap) == LastFive(s + [gap])
  {
  }

  lemma {:induction false} LastIs(t: Tracker, es: seq<Event>)
    requires Valid(t)
    ensures Run(t, es).last == LastPoll(t.last, es)
    decreases |es|
  {
    if es != [] {
      LastIs(t, es[..|es| - 1]);
      hide Run, Next;
      RunStep(t, es);
      NextRing(Run(t, es[..|es| - 1]), es[|es| - 1]);
    }
  }

  /** The ring always holds the last five gaps. */
  lemma {:induction false} RingHoldsLast(t: Tracker, es: seq<Event>)
    requires Valid(t)
    ensures Run(t, es).gaps == LastFive(t.gaps + GapsOf(t.last, es))
    decreases |es|
  {
    hide *;
    if es == [] {
      RunNothing(t);
    } else {
      var init, e := es[..|es| - 1], es[|es| - 1];
      var before := Run(t, init);
      RingHoldsLast(t, init);
      GapsStep(t.last, es);
      NotEmpty(t);
      LastIs(t, init);
      RunStep(t, es);
      NextRing(before, e);
      RingStep(t.gaps, GapsOf(t.last, init), before.gaps, e, before.last);
    }
  }

  lemma {:induction false} RunNothing(t: Tracker)
    requires Valid(t)
    ensures Run(t, []).gaps == LastFive(t.gaps + GapsOf(t.last, []))
  {
    assert GapsOf(t.last, []) == [];
    assert t.gaps + [] == t.gaps;
  }

  lemma {:induction false} NotEmpty(t: Tracker)
    requires Valid(t)
    ensures t.gaps != []
  {
  }

  lemma {:induction false} GapsStep(last: int, es: seq<Event>)
    requires es != []
    ensures var init, e := es[..|es| - 1], es[|es| - 1];
            GapsOf(last, es) == GapsOf(last, init) + (if e.Polled? then [e.now - LastPoll(last, init)] else [])
  {
  }

  lemma {:induction false} RingStep(first: seq<int>, gaps: seq<int>, ring: seq<int>, e: Event, last: int)
    requires first != [] && ring == LastFive(first + gaps)
    ensures (if e.Polled? then Pushed(ring, e.now - last) else ring)
         == LastFive(first + (gaps + (if e.Polled? then [e.now - last] else [])))
  {
    if e.Polled? {
      PushLast(first + gaps, e.now - last);
      Assoc(first, gaps, [e.now - last]);
    } else {
      assert gaps + [] == gaps;
    }
  }

  lemma {:induction false} RunStep(t: Tracker, es: seq<Event>)
    requires Valid(t) && es != []
    ensures Run(t, es) == Next(Run(t, es[..|es| - 1]), es[|es| - 1])
  {
  }

  lemma {:induction false} NextRing(t: Tracker, e: Event)
    requires Valid(t)
    ensures Next(t, e).gaps == (if e.Polled? then Pushed(t.gaps, e.now - t.last) else t.gaps)
    ensures Next(t, e).last == if e.Polled? then e.now else t.last
  {
  }

  lemma {:induction false} SumBounded(s: seq<int>, bound: int)
    requires forall i :: 0 <= i < |s| ==> s[i] <= bound
    ensures Sum(s) <= bound * |s|
  {
    if s != [] {
      SumBounded(s[..|s| - 1], bound);
      assert bound * |s| == bound * (|s| - 1) + bound;
    }
  }

  lemma {:induction false} AverageBounded(sum: int, n: int, bound: int)
    requires n > 0 && bound >= 0 && sum <= bound * n
    ensures Quotient(sum, n) <= bound
  {
  }

  /**
    Once five gaps in a row, the last ending in a poll, are at most the maximum then in force, nothing abnormal
    is reported, whatever happened before and however the rates changed.
    */
  lemma {:induction false} FiveGapsClear(t: Tracker, es: seq<Event>)
    requires Valid(t) && es != [] && es[|es| - 1].Polled?
    requires var gaps := GapsOf(t.last, es);
             |gaps| >= SLOTS && forall i :: |gaps| - SLOTS <= i < |gaps| ==> gaps[i] <= Run(t, es).max
    ensures !Abnormal(Run(t, es))
  {
    var gaps := GapsOf(t.last, es);
    var r := Run(t, es);
    RingHoldsLast(t, es);
    assert r.gaps == gaps[|gaps| - SLOTS..];
    SumBounded(r.gaps, r.max);
    AverageBounded(Sum(r.gaps), SLOTS, r.max);
    var before := Run(t, es[..|es| - 1]);
    AbnormalAfterPoll(before, es[|es| - 1].now);
    assert r.average == Quotient(Sum(r.gaps), |r.gaps|);
  }

  // ---------------------------------------------------------------- what a poll and a change compute

  /**
    The rate after a poll: the minimum below it, else the average and a quarter of it, the quarter cut down to
    whole milliseconds, else the maximum where that would be reached or passed.
    */
  lemma {:induction false} PollExactly(t: Tracker, now: int) returns (quarter: int)
    requires Valid(t)
    ensures var r := Poll(t, now);
            && r.min == t.min && r.max == t.max && r.last == now
            && (r.average < t.min ==> r.current == t.min)
            && (t.min <= r.average ==>
                  && quarter % 1000 == 0 && 4 * quarter <= r.average < 4 * quarter + 4000
                  && (r.current == t.max <==> r.average + quarter >= t.max)
                  && (r.current != t.max ==> r.current == r.average + quarter))
  {
    var avg := Poll(t, now).average;
    quarter := if avg < 0 then 0 else avg / 4000 * 1000;
    if avg >= 0 {
      QuarterOf(avg);
    }
  }

  lemma {:induction false} QuarterOf(avg: int)
    requires avg >= 0
    ensures avg / 1000 / 4 == avg / 4000
    ensures var q := avg / 4000 * 1000; q % 1000 == 0 && 4 * q <= avg < 4 * q + 4000
  {
    var m := avg / 4000;
    assert avg == 4000 * m + avg % 4000;
    assert avg / 1000 == 4 * m + avg % 4000 / 1000;
  }

  /** Only one number of whole milliseconds is such a quarter. */
  lemma {:induction false} QuarterUnique(avg: int, a: int, b: int)
    requires a % 1000 == 0 && 4 * a <= avg < 4 * a + 4000
    requires b % 1000 == 0 && 4 * b <= avg < 4 * b + 4000
    ensures a == b
  {
    assert a == 1000 * (a / 1000) && b == 1000 * (b / 1000);
  }

  function Distance(a: int, b: int): nat {
    if a < b then b - a else a - b
  }

  /** New bounds are the two rates in order, negative ones taken as zero; the current rate moves no further than it must. */
  lemma {:induction false} ChangeExactly(t: Tracker, minRate: int, maxRate: int, other: int)
    requires Valid(t)
    ensures var r := Change(t, minRate, maxRate);
            && (0 <= minRate <= maxRate ==> r.min == 1000 * minRate && r.max == 1000 * maxRate)
            && (minRate <= 0 <= maxRate ==> r.min == 0 && r.max == 1000 * maxRate)
            && (minRate <= 0 && maxRate <= 0 ==> r.min == r.max == 0)
            && Change(t, maxRate, minRate) == r
            && r.average == t.average && r.last == t.last && r.gaps == t.gaps
            && (r.min <= other <= r.max ==> Distance(t.current, r.current) <= Distance(t.current, other))
  {
  }

  /** A tracker starts at its minimum, as if every poll so far had come that fast. */
  lemma {:induction false} StartExactly(minRate: int, maxRate: int, now: int)
    ensures var r := Start(minRate, maxRate, now);
            && r.current == r.average == r.min && r.gaps == [r.min] && r.last == now
            && r.min == Change(r, minRate, maxRate).min && r.max == Change(r, minRate, maxRate).max
  {
  }

  /** The times of the polls of a run, the one before it first. */
  function PollTimes(last: int, es: seq<Event>): (r: seq<int>)
    ensures r != []
  {
    if es == [] then [last]
    else PollTimes(last, es[..|es| - 1]) + (if es[|es| - 1].Polled? then [es[|es| - 1].now] else [])
  }

  lemma {:induction false} GapsAreDifferences(last: int, es: seq<Event>)
    ensures var times, gaps := PollTimes(last, es), GapsOf(last, es);
            && |gaps| == |times| - 1 && times[|times| - 1] == LastPoll(last, es)
            && forall i :: 0 <= i < |gaps| ==> gaps[i] == times[i + 1] - times[i]
    decreases |es|
  {
    if es != [] {
      GapsAreDifferences(last, es[..|es| - 1]);
    }
  }

  lemma {:induction false} Telescope(times: seq<int>, gaps: seq<int>)
    requires |times| == |gaps| + 1 && forall i :: 0 <= i < |gaps| ==> gaps[i] == times[i + 1] - times[i]
    ensures Sum(gaps) == times[|gaps|] - times[0]
  {
    if gaps != [] {
      Telescope(times[..|gaps|], gaps[..|gaps| - 1]);
    }
  }

  /** After five polls and more, the average is a fifth of the time that the last five gaps span. */
  lemma {:induction false} AverageOfRun(t: Tracker, es: seq<Event>)
    requires Valid(t) && es != [] && es[|es| - 1].Polled? && |PollTimes(t.last, es)| > SLOTS
    ensures var times := PollTimes(t.last, es);
            var span := times[|times| - 1] - times[|times| - 1 - SLOTS];
            Run(t, es).average == if span >= 0 then span / 5 else -(-span / 5) // toward zero
  {
    hide Run, PollTimes, GapsOf, Next, Poll, Sum;
    var times, gaps := PollTimes(t.last, es), GapsOf(t.last, es);
    var k := |gaps| - SLOTS;
    GapsAreDifferences(t.last, es);
    RingHoldsLast(t, es);
    LastFiveOf(t.gaps, gaps);
    RunStep(t, es);
    AverageIs(Run(t, es[..|es| - 1]), es[|es| - 1].now);
    TelescopeFrom(times, gaps, k);
  }

  lemma {:induction false} LastFiveOf(first: seq<int>, gaps: seq<int>)
    requires |gaps| >= SLOTS
    ensures LastFive(first + gaps) == gaps[|gaps| - SLOTS..]
  {
  }

  lemma {:induction false} TelescopeFrom(times: seq<int>, gaps: seq<int>, k: nat)
    requires k <= |gaps| && |times| == |gaps| + 1 && forall i :: 0 <= i < |gaps| ==> gaps[i] == times[i + 1] - times[i]
    ensures Sum(gaps[k..]) == times[|gaps|] - times[k]
  {
    hide Sum;
    var t, g := times[k..], gaps[k..];
    forall i | 0 <= i < |g| ensures g[i] == t[i + 1] - t[i] {
      assert g[i] == gaps[k + i];
    }
    Telescope(t, g);
  }

  lemma {:induction false} AverageIs(t: Tracker, now: int)
    requires Valid(t)
    ensures var r := Next(t, Polled(now)); r.gaps != [] && r.average == Quotient(Sum(r.gaps), |r.gaps|)
  {
  }

  // ---------------------------------------------------------------- the tracker as an object

  class PollingTracker {
    var minTimeOut: int
    var maxTimeOut: int
    var averagePollRate: int
    var currentPollRate: int
    var lastPollTime: int
    var pollingFrequency: seq<int>

    ghost function State(): Tracker
      reads this
    {
      Tracker(minTimeOut, maxTimeOut, averagePollRate, currentPollRate, lastPollTime, pollingFrequency)
    }

    constructor (minRate: int, maxRate: int, now: int)
      ensures State() == Start(minRate, maxRate, now) && Valid(State())
    {
      StartValid(minRate, maxRate, now);
      var low := Low(minRate, maxRate);
      minTimeOut, maxTimeOut := low, High(minRate, maxRate);
      averagePollRate, currentPollRate, lastPollTime := low, low, now;
      pollingFrequency := [low];
    }

    method ChangeTimeOutRates(minRate: int, maxRate: int)
      requires Valid(State())
      modifies this
      ensures State() == Change(old(State()), minRate, maxRate) && Valid(State())
    {
      NextValid(State(), Changed(minRate, maxRate));
      minTimeOut, maxTimeOut := Low(minRate, maxRate), High(minRate, maxRate);
      currentPollRate := Max(currentPollRate, minTimeOut);
      currentPollRate := Min(currentPollRate, maxTimeOut);
    }

    method PollOccurred(now: int)
      requires Valid(State())
      modifies this
      ensures State() == Poll(old(State()), now) && Valid(State())
    {
      NextValid(State(), Polled(now));
      var gap := now - lastPollTime;
      if |pollingFrequency| == SLOTS {
        pollingFrequency := pollingFrequency[1..];
      }
      pollingFrequency := pollingFrequency + [gap];
      var sum := Accumulate(pollingFrequency);
      var avg := Quotient(sum, |pollingFrequency|);
      lastPollTime, averagePollRate := now, avg;
      if avg < minTimeOut {
        currentPollRate := minTimeOut;
      } else {
        currentPollRate := Slower(avg);
        if currentPollRate > maxTimeOut {
          currentPollRate := maxTimeOut;
        }
      }
    }

    method HasAbnormalEvent() returns (abnormal: bool)
      ensures abnormal <==> Abnormal(State())
    {
      abnormal := averagePollRate > currentPollRate;
    }
  }

  method Accumulate(s: seq<int>) returns (sum: int)
    ensures sum == Sum(s)
  {
    sum := 0;
    for i := 0 to |s|
      invariant sum == Sum(s[..i])
    {
      assert s[..i + 1][..i] == s[..i];
      sum := sum + s[i];
    }
    assert s[..|s|] == s;
  }
}
