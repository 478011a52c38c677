/**
 Sleep seen from the difference of two clocks, one of which stands still in it. Times are
 in nanoseconds.
 */
module Wakefulness {
  import opened Wrappers

  const SECOND: nat := 1_000_000_000

  /** The least difference of the clocks that counts as sleep. */
  const SUSPENDED_AFTER: nat := 10 * SECOND

  /** The awake time after which a sleep no longer matters. */
  const SETTLE_AFTER_SUSPENSION: nat := 120 * SECOND

  /** One reading of both clocks. */
  datatype Sample = Sample(wall: int, awake: int)

  /** The time from one point of the awake clock to a later one, none if it is not later. */
  function Since(earlier: int, later: int): nat {
    if later < earlier then 0 else later - earlier
  }

  /** The difference of the clocks from one reading to the next, where it counts as sleep. */
  function SleptBetween(earlier: Sample, later: Sample): Option<nat> {
    var wall := later.wall - earlier.wall;
    var awake := Since(earlier.awake, later.awake);
    if wall < 0 || wall < awake || wall - awake < SUSPENDED_AFTER then None else Some(wall - awake)
  }

  // ------------------------------------------------------------------ the watch

  /** The reading before this one, and the awake time of the last reading that reported a sleep. */
  datatype Watch = Watch(last: Sample, woke: Option<int>)

  function Observed(w: Watch, now: Sample): Watch {
    Watch(now, if SleptBetween(w.last, now).Some? then Some(now.awake) else w.woke)
  }

  predicate Settled(w: Watch, awake: int) {
    w.woke.Some? ==> Since(w.woke.value, awake) >= SETTLE_AFTER_SUSPENSION
  }

  class Wakefulness {
    var last: Sample
    var woke: Option<int>

    ghost function State(): Watch
      reads this
    {
      Watch(last, woke)
    }

    constructor (first: Sample)
      ensures State() == Watch(first, None)
    {
      last, woke := first, None;
    }

    /** Keeps a reading, and reports the sleep before it. */
    method Observe(now: Sample) returns (slept: Option<nat>)
      modifies this
      ensures State() == Observed(old(State()), now) && slept == SleptBetween(old(last), now)
    {
      var earlier := last;
      last := now;
      slept := SleptBetween(earlier, now);
      if slept.Some? {
        woke := Some(now.awake);
      }
    }

    /** Asks the watch without a new reading. */
    method SettledNow(awake: int) returns (settled: bool)
      ensures settled == Settled(State(), awake)
    {
      settled := woke.None? || Since(woke.value, awake) >= SETTLE_AFTER_SUSPENSION;
    }
  }

  // ------------------------------------------------------------------- whole runs

  /** The watch after the first `n` readings. */
  function After(first: Sample, readings: seq<Sample>, n: nat): Watch
    requires n <= |readings|
  {
    if n == 0 then Watch(first, None) else Observed(After(first, readings, n - 1), readings[n - 1])
  }

  /** The reading before the `i`-th, the first being the one the watch started with. */
  function Before(first: Sample, readings: seq<Sample>, i: nat): Sample
    requires i < |readings|
  {
    if i == 0 then first else readings[i - 1]
  }

  /** What the `i`-th reading reports. */
  function Report(first: Sample, readings: seq<Sample>, i: nat): Option<nat>
    requires i < |readings|
  {
    SleptBetween(Before(first, readings, i), readings[i])
  }

  function Reported(a: Sample, b: Sample): nat {
    if SleptBetween(a, b).Some? then SleptBetween(a, b).value else 0
  }

  function TotalReported(first: Sample, readings: seq<Sample>, n: nat): nat
    requires n <= |readings|
  {
    if n == 0 then 0 else
      TotalReported(first, readings, n - 1)
      + Reported(Before(first, readings, n - 1), readings[n - 1])
  }

  function Unreported(first: Sample, readings: seq<Sample>, n: nat): nat
    requires n <= |readings|
  {
    if n == 0 then 0 else Unreported(first, readings, n - 1) + (if Report(first, readings, n - 1).Some? then 0 else 1)
  }

  /** How far the wall clock outran the awake clock between two readings. */
  function Gap(a: Sample, b: Sample): int {
    (b.wall - a.wall) - (b.awake - a.awake)
  }

  /** The readings come in the order of the awake clock. */
  ghost predicate InOrder(first: Sample, readings: seq<Sample>) {
    forall i :: 0 <= i < |readings| ==> Before(first, readings, i).awake <= readings[i].awake
  }

  /** The wall clock was never set back: it advances at least as much as the awake clock. */
  ghost predicate NeverSetBack(first: Sample, readings: seq<Sample>) {
    forall i :: 0 <= i < |readings| ==> Gap(Before(first, readings, i), readings[i]) >= 0
  }

  /** What a reading leaves out of its report: its whole gap when silent, and otherwise how far the awake clock came back. */
  function Unseen(a: Sample, b: Sample): int {
    if SleptBetween(a, b).None? then Gap(a, b) else if b.awake < a.awake then a.awake - b.awake else 0
  }

  function TotalUnseen(first: Sample, readings: seq<Sample>, n: nat): int
    requires n <= |readings|
  {
    if n == 0 then 0 else TotalUnseen(first, readings, n - 1) + Unseen(Before(first, readings, n - 1), readings[n - 1])
  }

  /**
   A reading reports a sleep exactly where the wall clock outran the awake clock by ten
   seconds or more, and then by how much; a reading from before the last one counts as
   taken with it.
   */
  lemma {:induction false} SleepIsReportedExactly(first: Sample, readings: seq<Sample>, i: nat, slept: nat)
    requires i < |readings|
    ensures var a, b := Before(first, readings, i), readings[i];
            Report(first, readings, i) == Some(slept) <==>
              && slept >= 10_000_000_000
              && slept == (if b.awake >= a.awake then Gap(a, b) else b.wall - a.wall)
  {
    var a, b := Before(first, readings, i), readings[i];
    assert SleptBetween(a, b) == Some(slept) <==> slept >= SUSPENDED_AFTER && slept == (b.wall - a.wall) - Since(a.awake, b.awake);
  }

  lemma {:induction false} ReportedAndUnseen(first: Sample, readings: seq<Sample>, n: nat)
    requires n <= |readings|
    ensures TotalReported(first, readings, n) + TotalUnseen(first, readings, n)
         == (if n == 0 then 0 else Gap(first, readings[n - 1]))
  {
    if n > 0 {
      ReportedAndUnseen(first, readings, n - 1);
    }
  }

  /**
   Over any readings in any order the true gap is what was reported and what was not
   seen: so the reports exceed the gap exactly when the unseen parts sum to less than
   nothing.
   */
  lemma {:induction false} GapIsReportedAndUnseen(first: Sample, readings: seq<Sample>)
    requires readings != []
    ensures Gap(first, readings[|readings| - 1])
         == TotalReported(first, readings, |readings|) + TotalUnseen(first, readings, |readings|)
    ensures TotalReported(first, readings, |readings|) <= Gap(first, readings[|readings| - 1]) <==>
            TotalUnseen(first, readings, |readings|) >= 0
  {
    ReportedAndUnseen(first, readings, |readings|);
  }

  lemma {:induction false} UnseenUpTo(first: Sample, readings: seq<Sample>, n: nat)
    requires n <= |readings| && InOrder(first, readings)
    ensures TotalUnseen(first, readings, n) <= (SUSPENDED_AFTER - 1) * Unreported(first, readings, n)
    ensures NeverSetBack(first, readings) ==> TotalUnseen(first, readings, n) >= 0
  {
    if n > 0 {
      var before, now := Before(first, readings, n - 1), readings[n - 1];
      UnseenUpTo(first, readings, n - 1);
      assert before.awake <= now.awake && (NeverSetBack(first, readings) ==> Gap(before, now) >= 0);
      OneMore(Unreported(first, readings, n - 1));
    }
  }

  lemma {:induction false} OneMore(n: nat)
    ensures (SUSPENDED_AFTER - 1) * (n + 1) == (SUSPENDED_AFTER - 1) * n + SUSPENDED_AFTER - 1
  {
  }

  /**
   Over any readings in order, what is reported falls short of the true gap by less than
   the threshold for each reading that reported nothing, and by nothing when all report.
   It never exceeds the gap while the wall clock is not set back.
   */
  lemma {:induction false} SleepIsAccounted(first: Sample, readings: seq<Sample>)
    requires readings != [] && InOrder(first, readings)
    ensures var missed := Gap(first, readings[|readings| - 1]) - TotalReported(first, readings, |readings|);
            && missed <= (SUSPENDED_AFTER - 1) * Unreported(first, readings, |readings|)
            && (NeverSetBack(first, readings) ==> 0 <= missed)
            && (NeverSetBack(first, readings) && Unreported(first, readings, |readings|) == 0 ==> missed == 0)
  {
    GapIsReportedAndUnseen(first, readings);
    UnseenUpTo(first, readings, |readings|);
  }

  /**
   Clocks that are right and read in order, but a reading taken before the sleep that
   reaches the watch after it: one sleep is counted twice, however long it was.
   */
  lemma {:induction false} OutOfOrderCountsTwice(slept: nat)
    requires slept >= SUSPENDED_AFTER
    ensures var first, early, woken, later := Sample(0, 0), Sample(1, 1), Sample(slept + 2, 2), Sample(slept + 3, 3);
            && InOrder(first, [early, woken, later]) && NeverSetBack(first, [early, woken, later])
            && TotalReported(first, [early, woken, later], 3) == slept == Gap(first, later)
            && !InOrder(first, [woken, early, later])
            && TotalReported(first, [woken, early, later], 3) == 2 * slept
  {
    var first, early, woken, later := Sample(0, 0), Sample(1, 1), Sample(slept + 2, 2), Sample(slept + 3, 3);
    ThreeReports(first, early, woken, later);
    ThreeReports(first, woken, early, later);
    var straight, crossed := [early, woken, later], [woken, early, later];
    assert forall i :: 0 <= i < 3 ==> Before(first, straight, i).awake <= straight[i].awake && Gap(Before(first, straight, i), straight[i]) >= 0;
    assert Before(first, crossed, 1).awake == 2 && crossed[1].awake == 1;
  }

  lemma {:induction false} ThreeReports(first: Sample, a: Sample, b: Sample, c: Sample)
    ensures TotalReported(first, [a, b, c], 3) == Reported(first, a) + Reported(a, b) + Reported(b, c)
  {
    var readings := [a, b, c];
    assert Report(first, readings, 0) == SleptBetween(first, a) && Report(first, readings, 1) == SleptBetween(a, b);
    assert Report(first, readings, 2) == SleptBetween(b, c);
    assert TotalReported(first, readings, 1) == Reported(first, a);
    assert TotalReported(first, readings, 2) == Reported(first, a) + Reported(a, b);
  }

  // --------------------------------------------------------------------- settling

  /** Each of the first `n` readings that reported a sleep was long enough ago. */
  ghost predicate AwakeSinceEach(first: Sample, readings: seq<Sample>, n: nat, awake: int)
    requires n <= |readings|
  {
    forall i :: 0 <= i < n && Report(first, readings, i).Some? ==> awake - readings[i].awake >= SETTLE_AFTER_SUSPENSION
  }

  lemma {:induction false} LastIsBefore(first: Sample, readings: seq<Sample>, n: nat)
    requires n < |readings|
    ensures After(first, readings, n).last == Before(first, readings, n)
  {
  }

  lemma {:induction false} InOrderUpTo(first: Sample, readings: seq<Sample>, i: nat, j: nat)
    requires InOrder(first, readings) && i <= j < |readings|
    ensures readings[i].awake <= readings[j].awake
    decreases j - i
  {
    if i < j {
      InOrderUpTo(first, readings, i, j - 1);
      assert Before(first, readings, j).awake <= readings[j].awake;
    }
  }

  lemma {:induction false} OnePastSettles(first: Sample, readings: seq<Sample>, n: nat, awake: int)
    requires n < |readings| && InOrder(first, readings)
    ensures AwakeSinceEach(first, readings, n + 1, awake)
       <==> if Report(first, readings, n).Some? then awake - readings[n].awake >= SETTLE_AFTER_SUSPENSION
            else AwakeSinceEach(first, readings, n, awake)
  {
    forall i | 0 <= i <= n ensures readings[i].awake <= readings[n].awake {
      InOrderUpTo(first, readings, i, n);
    }
  }

  lemma {:induction false} SettledAfter(first: Sample, readings: seq<Sample>, n: nat, awake: int)
    requires n <= |readings| && InOrder(first, readings)
    ensures Settled(After(first, readings, n), awake) <==> AwakeSinceEach(first, readings, n, awake)
  {
    if n > 0 {
      SettledAfter(first, readings, n - 1, awake);
      LastIsBefore(first, readings, n - 1);
      OnePastSettles(first, readings, n - 1, awake);
    }
  }

  /** The host is settled exactly when it was awake long enough since every sleep that was reported. */
  lemma {:induction false} SettledIsAwakeSince(first: Sample, readings: seq<Sample>, awake: int)
    requires InOrder(first, readings)
    ensures Settled(After(first, readings, |readings|), awake)
       <==> forall i :: 0 <= i < |readings| && Report(first, readings, i).Some? ==>
              awake - readings[i].awake >= 120_000_000_000
  {
    SettledAfter(first, readings, |readings|, awake);
  }
}
