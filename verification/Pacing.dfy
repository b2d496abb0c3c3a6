// Pacing of the client's bursts (src/switches.h, src/client.cpp, src/client.h), and the size of the
// time table that it has to respect (src/sockperf.cpp).  The clock counts nanoseconds.
module Pacing {
  import opened Arith
  import Messages

  const NSEC_IN_SEC: nat := 1_000_000_000

  // --- the sizing, as done at start-up ---

  /** The rate option value that stands for "as fast as possible". */
  const MPS_UNLIMITED: nat := Messages.TWO_32 - 1

  /** The length of a cycle, and the rate by which the table is sized. */
  datatype Plan = Plan(cycle: nat, rate: nat)

  /** The choice made at start-up: without a limit the cycle is 0 and the table is sized for mpsMax. */
  function StartUp(mps: nat, burst: nat, mpsMax: nat): Plan
    requires mps > 0
  {
    FloorNonNegative(NSEC_IN_SEC * burst, mps);
    if mps == MPS_UNLIMITED then Plan(0, mpsMax) else Plan(NSEC_IN_SEC * burst / mps, mps)
  }

  /** A limited rate is kept as it is, and its cycle is the largest whole number of nanoseconds in which
      no more than a burst is due. */
  lemma CycleIsLargest(mps: nat, burst: nat, mpsMax: nat)
    requires 0 < mps != MPS_UNLIMITED
    ensures var plan := StartUp(mps, burst, mpsMax);
            && plan.rate == mps && plan.cycle * mps <= NSEC_IN_SEC * burst
            && forall c: nat :: c * mps <= NSEC_IN_SEC * burst ==> c <= plan.cycle
  {
    var due, cycle := NSEC_IN_SEC * burst, StartUp(mps, burst, mpsMax).cycle;
    FloorIs(due, mps, cycle);
    forall c: nat | c * mps <= due
      ensures c <= cycle
    {
      if cycle < c {
        MulMono(cycle + 1, c, mps);
      }
    }
  }

  /** The seconds the table is sized for, a test taking sec seconds with the given warm-up and
      cool-down in milliseconds. */
  function MaxTestDuration(sec: nat, warmup: nat, cooldown: nat): nat {
    1 + sec + (warmup + cooldown) / 1000
  }

  /** They are more than the test takes with its warm-up and cool-down, by no more than a second. */
  lemma DurationCovers(sec: nat, warmup: nat, cooldown: nat)
    ensures var msec := 1000 * sec + warmup + cooldown;
            msec < 1000 * MaxTestDuration(sec, warmup, cooldown) <= msec + 1000
  {
  }

  /** The space for ten more replies, in 32-bit arithmetic. */
  function Slack(replyEvery: nat): nat {
    (10 * replyEvery) % Messages.TWO_32
  }

  function MaxSequenceNo(seconds: nat, rate: nat, replyEvery: nat, burst: nat): nat {
    seconds * rate + Slack(replyEvery) + burst
  }

  // --- the send loop ---

  /** One turn of the send loop: what the clock says each time it is read (the test ends if it does
      not get there), and for each packet of the burst whether the socket took it.  The test may end
      within the burst. */
  datatype Turn = Turn(readings: seq<int>, takes: seq<bool>)

  /** A burst: when it started, and how far it advanced the sequence number. */
  datatype Burst = Burst(time: int, sent: nat)

  function Taken(takes: seq<bool>): (n: nat)
    ensures n <= |takes|
  {
    if takes == [] then 0 else Taken(takes[..|takes| - 1]) + if takes[|takes| - 1] then 1 else 0
  }

  /** The first reading that reaches the target. */
  function FirstAt(readings: seq<int>, target: int): (i: nat)
    ensures i <= |readings| && (i < |readings| ==> readings[i] >= target)
    ensures forall j | 0 <= j < i :: readings[j] < target
  {
    if readings == [] || readings[0] >= target then 0 else 1 + FirstAt(readings[1..], target)
  }

  function Clip(takes: seq<bool>, burst: nat): seq<bool> {
    if |takes| <= burst then takes else takes[..burst]
  }

  /** A burst is cut short only by its size. */
  lemma ClipMeans(takes: seq<bool>, burst: nat)
    ensures Clip(takes, burst) <= takes && |Clip(takes, burst)| <= burst
    ensures |Clip(takes, burst)| < burst ==> Clip(takes, burst) == takes
  {
  }

  /** The bursts of a run whose next cycle starts at next. */
  function Bursts(next: int, cycle: nat, burst: nat, turns: seq<Turn>): seq<Burst>
    decreases |turns|
  {
    if turns == [] then []
    else
      var i := FirstAt(turns[0].readings, next);
      if i == |turns[0].readings| then []
      else
        [Burst(turns[0].readings[i], Taken(Clip(turns[0].takes, burst)))] +
        Bursts(next + cycle, cycle, burst, turns[1..])
  }

  function Total(bursts: seq<Burst>): nat {
    if bursts == [] then 0 else Total(bursts[..|bursts| - 1]) + bursts[|bursts| - 1].sent
  }

  class Pacer {
    const cycleDuration: nat
    const burstSize: nat
    var cycleStartTime: int       // g_cycleStartTime
    var sequenceCounter: nat

    /** initBeforeLoop. */
    constructor (startTime: int, cycleDuration: nat, burstSize: nat)
      ensures this.cycleDuration == cycleDuration && this.burstSize == burstSize
      ensures cycleStartTime == startTime - cycleDuration && sequenceCounter == 0
    {
      this.cycleDuration, this.burstSize := cycleDuration, burstSize;
      cycleStartTime, sequenceCounter := startTime - cycleDuration, 0;
    }

    /** SwitchOnCycleDuration: busy wait for the start of the next cycle. */
    method Wait(readings: seq<int>) returns (passed: bool, time: int)
      modifies this`cycleStartTime
      ensures cycleStartTime == old(cycleStartTime) + cycleDuration
      ensures var i := FirstAt(readings, cycleStartTime);
              passed == (i < |readings|) && (passed ==> time == readings[i])
    {
      var next, i := cycleStartTime + cycleDuration, 0;
      passed, time := false, 0;
      while i < |readings|
        invariant i <= |readings| && FirstAt(readings, next) == i + FirstAt(readings[i..], next)
        invariant !passed
      {
        if readings[i] >= next {
          passed, time := true, readings[i];
          break;
        }
        assert readings[i..][1..] == readings[i + 1..];
        i := i + 1;
      }
      cycleStartTime := next;
    }

    /** client_send_burst. */
    method SendBurst(turn: Turn) returns (passed: bool, ghost b: Burst)
      modifies this
      ensures cycleStartTime == old(cycleStartTime) + cycleDuration
      ensures var i := FirstAt(turn.readings, cycleStartTime);
              && passed == (i < |turn.readings|)
              && (passed ==> b == Burst(turn.readings[i], Taken(Clip(turn.takes, burstSize))))
      ensures sequenceCounter == old(sequenceCounter) + if passed then b.sent else 0
    {
      var time;
      passed, time := Wait(turn.readings);
      b := Burst(time, 0);
      if passed {
        var i := 0;
        while i < burstSize && i < |turn.takes|
          invariant i <= burstSize && i <= |turn.takes| && cycleStartTime == old(cycleStartTime) + cycleDuration
          invariant sequenceCounter == old(sequenceCounter) + Taken(turn.takes[..i])
        {
          assert turn.takes[..i + 1][..i] == turn.takes[..i];
          if turn.takes[i] {
            sequenceCounter := sequenceCounter + 1;
          }
          i := i + 1;
        }
        assert turn.takes[..i] == Clip(turn.takes, burstSize);
        b := Burst(time, Taken(turn.takes[..i]));
      }
    }

    /** doSendLoop. */
    method SendLoop(turns: seq<Turn>) returns (ghost bursts: seq<Burst>)
      modifies this
      ensures bursts == Bursts(old(cycleStartTime) + cycleDuration, cycleDuration, burstSize, turns)
      ensures sequenceCounter == old(sequenceCounter) + Total(bursts)
    {
      hide Bursts, FirstAt, Clip, Taken;
      var k := 0;
      bursts := [];
      ghost var all := Bursts(cycleStartTime + cycleDuration, cycleDuration, burstSize, turns);
      while k < |turns|
        invariant k <= |turns|
        invariant all == bursts + Bursts(cycleStartTime + cycleDuration, cycleDuration, burstSize, turns[k..])
        invariant sequenceCounter == old(sequenceCounter) + Total(bursts)
      {
        NextTurn(cycleStartTime + cycleDuration, cycleDuration, burstSize, turns, k);
        var passed; ghost var b;
        passed, b := SendBurst(turns[k]);
        if !passed {
          return;
        }
        TotalNext(bursts, b);
        bursts := bursts + [b];
        k := k + 1;
      }
      assert turns[k..] == [];
      NoTurns(cycleStartTime + cycleDuration, cycleDuration, burstSize);
    }
  }

  lemma NextTurn(next: int, cycle: nat, burst: nat, turns: seq<Turn>, k: nat)
    requires k < |turns|
    ensures var turn := turns[k];
            var i := FirstAt(turn.readings, next);
            Bursts(next, cycle, burst, turns[k..]) ==
            if i == |turn.readings| then []
            else
              [Burst(turn.readings[i], Taken(Clip(turn.takes, burst)))] +
              Bursts(next + cycle, cycle, burst, turns[k + 1..])
  {
    assert turns[k..][1..] == turns[k + 1..];
  }

  lemma NoTurns(next: int, cycle: nat, burst: nat)
    ensures Bursts(next, cycle, burst, []) == []
  {
  }

  lemma TotalNext(bursts: seq<Burst>, b: Burst)
    ensures Total(bursts + [b]) == Total(bursts) + b.sent
  {
    assert (bursts + [b])[..|bursts|] == bursts;
  }

  // --- what a paced run looks like ---

  /** No burst starts before its cycle, and none is larger than allowed. */
  ghost predicate Paced(bursts: seq<Burst>, next: int, cycle: nat, burst: nat) {
    forall k | 0 <= k < |bursts| :: next + k * cycle <= bursts[k].time && bursts[k].sent <= burst
  }

  /** Every run of the loop is paced... */
  lemma {:induction false} RunsArePaced(next: int, cycle: nat, burst: nat, turns: seq<Turn>)
    ensures Paced(Bursts(next, cycle, burst, turns), next, cycle, burst)
    decreases |turns|
  {
    var bs := Bursts(next, cycle, burst, turns);
    if bs != [] {
      RunsArePaced(next + cycle, cycle, burst, turns[1..]);
      assert bs[1..] == Bursts(next + cycle, cycle, burst, turns[1..]);
      forall k | 0 < k < |bs|
        ensures next + k * cycle <= bs[k].time && bs[k].sent <= burst
      {
        assert bs[k] == bs[1..][k - 1];
        assert next + cycle + (k - 1) * cycle == next + k * cycle;
      }
    }
  }

  /** ... and every paced list of bursts is a run. */
  lemma {:induction false} PacedIsARun(bursts: seq<Burst>, next: int, cycle: nat, burst: nat) returns (turns: seq<Turn>)
    requires Paced(bursts, next, cycle, burst)
    ensures Bursts(next, cycle, burst, turns) == bursts
    decreases |bursts|
  {
    if bursts == [] {
      turns := [];
    } else {
      forall k | 0 <= k < |bursts[1..]|
        ensures next + cycle + k * cycle <= bursts[1..][k].time && bursts[1..][k].sent <= burst
      {
        assert bursts[1..][k] == bursts[k + 1];
        assert next + cycle + k * cycle == next + (k + 1) * cycle;
      }
      var rest := PacedIsARun(bursts[1..], next + cycle, cycle, burst);
      var takes := seq(bursts[0].sent, i => true);
      AllTaken(takes);
      turns := [Turn([bursts[0].time], takes)] + rest;
      assert turns[1..] == rest;
      assert FirstAt(turns[0].readings, next) == 0;
    }
  }

  lemma {:induction false} AllTaken(takes: seq<bool>)
    requires forall i | 0 <= i < |takes| :: takes[i]
    ensures Taken(takes) == |takes|
  {
    if takes != [] {
      AllTaken(takes[..|takes| - 1]);
    }
  }

  // --- the bound ---

  ghost predicate Within(bursts: seq<Burst>, end: int) {
    forall k | 0 <= k < |bursts| :: bursts[k].time <= end
  }

  /** The sequence number of every run that ends in time stays within the bound. */
  ghost predicate Bounded(start: int, seconds: nat, plan: Plan, burst: nat) {
    forall bursts: seq<Burst> |
        Paced(bursts, start, plan.cycle, burst) && Within(bursts, start + seconds * NSEC_IN_SEC) ::
      Total(bursts) <= seconds * plan.rate + burst
  }

  lemma {:induction false} TotalAtMost(bursts: seq<Burst>, burst: nat)
    requires forall k | 0 <= k < |bursts| :: bursts[k].sent <= burst
    ensures Total(bursts) <= |bursts| * burst
    ensures (forall k | 0 <= k < |bursts| :: bursts[k].sent == burst) ==> Total(bursts) == |bursts| * burst
  {
    if bursts != [] {
      TotalAtMost(bursts[..|bursts| - 1], burst);
      assert |bursts| * burst == (|bursts| - 1) * burst + burst;
    }
  }

  /** A run that ends in time has at most this many bursts after the first. */
  lemma BurstsInTime(bursts: seq<Burst>, start: int, cycle: nat, burst: nat, duration: nat)
    requires cycle > 0 && Paced(bursts, start, cycle, burst) && Within(bursts, start + duration)
    ensures |bursts| - 1 <= duration / cycle
  {
    if bursts != [] {
      var k := |bursts| - 1;
      assert start + k * cycle <= bursts[k].time <= start + duration;
      FloorMono(k * cycle, duration, cycle);
      MultipleFloor(k, cycle);
    } else {
      FloorNonNegative(duration, cycle);
    }
  }

  /** The run that never waits longer than it must. */
  function Eager(n: nat, start: int, cycle: nat, burst: nat): (bursts: seq<Burst>)
    ensures |bursts| == n && forall k | 0 <= k < n :: bursts[k] == Burst(start + k * cycle, burst)
  {
    seq(n, k => Burst(start + k * cycle, burst))
  }

  /** All runs keep the bound exactly if the cycle, which is rounded down, is not rounded down too
      far. */
  lemma BoundedExactly(start: int, seconds: nat, plan: Plan, burst: nat)
    requires burst > 0
    ensures Bounded(start, seconds, plan, burst) <==>
              plan.cycle > 0 && seconds * NSEC_IN_SEC / plan.cycle * burst <= seconds * plan.rate
  {
    hide Bounded;
    var duration, limit := seconds * NSEC_IN_SEC, seconds * plan.rate;
    if plan.cycle == 0 {
      BurstsExceed(limit + 2, burst, limit);
      TooMany(limit + 2, start, seconds, plan, burst);
    } else {
      var q := duration / plan.cycle;
      FloorNonNegative(duration, plan.cycle);
      FloorIs(duration, plan.cycle, q);
      if q * burst <= limit {
        Enough(q, start, seconds, plan, burst);
      } else {
        OneMore(q, burst);
        TooMany(q + 1, start, seconds, plan, burst);
      }
    }
  }

  lemma OneMore(q: int, burst: int)
    ensures (q + 1) * burst == q * burst + burst
  {
  }

  lemma BurstsExceed(n: int, burst: int, limit: int)
    requires n == limit + 2 && 0 <= limit && 0 < burst
    ensures n * burst > limit + burst
  {
    MulMono(1, burst, limit + 1);
    assert (limit + 1) * burst == burst * (limit + 1);
    OneMore(limit + 1, burst);
  }

  lemma Enough(q: nat, start: int, seconds: nat, plan: Plan, burst: nat)
    requires q * burst <= seconds * plan.rate
    requires plan.cycle > 0 && q == seconds * NSEC_IN_SEC / plan.cycle
    ensures Bounded(start, seconds, plan, burst)
  {
    forall bursts: seq<Burst> |
        Paced(bursts, start, plan.cycle, burst) && Within(bursts, start + seconds * NSEC_IN_SEC)
      ensures Total(bursts) <= seconds * plan.rate + burst
    {
      hide Paced, Within, Total;
      BurstsInTime(bursts, start, plan.cycle, burst, seconds * NSEC_IN_SEC);
      TotalInTime(bursts, start, plan.cycle, burst, q);
    }
  }

  lemma TotalInTime(bursts: seq<Burst>, start: int, cycle: nat, burst: nat, q: nat)
    requires Paced(bursts, start, cycle, burst) && |bursts| <= q + 1
    ensures Total(bursts) <= q * burst + burst
  {
    hide Paced, Total;
    PacedSizes(bursts, start, cycle, burst);
    TotalAtMost(bursts, burst);
    MulMono(|bursts|, q + 1, burst);
    OneMore(q, burst);
  }

  lemma PacedSizes(bursts: seq<Burst>, next: int, cycle: nat, burst: nat)
    requires Paced(bursts, next, cycle, burst)
    ensures forall k | 0 <= k < |bursts| :: bursts[k].sent <= burst
  {
  }

  /** A run that breaks the bound. */
  lemma TooMany(n: nat, start: int, seconds: nat, plan: Plan, burst: nat)
    requires n > 0 && (n - 1) * plan.cycle <= seconds * NSEC_IN_SEC && n * burst > seconds * plan.rate + burst
    ensures !Bounded(start, seconds, plan, burst)
  {
    var bursts := Eager(n, start, plan.cycle, burst);
    TotalAtMost(bursts, burst);
    forall k | 0 <= k < n
      ensures bursts[k].time <= start + seconds * NSEC_IN_SEC
    {
      MulMono(k, n - 1, plan.cycle);
    }
    assert Paced(bursts, start, plan.cycle, burst) && Within(bursts, start + seconds * NSEC_IN_SEC);
  }

  lemma FloorNonNegative(a: nat, d: nat)
    requires d > 0
    ensures 0 <= a / d
  {
    FloorAtMost(a, d);
  }

  /** In particular it suffices that the cycle is exact. */
  lemma ExactCycleIsBounded(start: int, seconds: nat, plan: Plan, burst: nat)
    requires burst > 0 && plan.cycle * plan.rate == NSEC_IN_SEC * burst
    ensures Bounded(start, seconds, plan, burst)
  {
    var cycle := plan.cycle;
    assert cycle > 0;
    var q := seconds * NSEC_IN_SEC / cycle;
    FloorIs(seconds * NSEC_IN_SEC, cycle, q);
    assert q * burst * cycle <= seconds * plan.rate * cycle by {
      MulMono(q * cycle, seconds * NSEC_IN_SEC, burst);
      assert q * burst * cycle == q * cycle * burst;
      assert seconds * NSEC_IN_SEC * burst == seconds * (cycle * plan.rate) == seconds * plan.rate * cycle;
    }
    MulCancel(q * burst, seconds * plan.rate, cycle);
    BoundedExactly(start, seconds, plan, burst);
  }

  /** As it is for the rates that divide the burst evenly over the nanoseconds. */
  lemma EvenRateIsBounded(start: int, seconds: nat, mps: nat, burst: nat, mpsMax: nat)
    requires 0 < mps != MPS_UNLIMITED && 0 < burst && NSEC_IN_SEC * burst % mps == 0
    ensures Bounded(start, seconds, StartUp(mps, burst, mpsMax), burst)
  {
    var due := NSEC_IN_SEC * burst;
    assert due == due / mps * mps + due % mps;
    ExactCycleIsBounded(start, seconds, StartUp(mps, burst, mpsMax), burst);
  }

  /** At 600 million messages a second the cycle of 1.67 ns is cut to 1 ns, and a run of the shortest
      test can outgrow its table. */
  lemma NotAlwaysBounded(start: int, mpsMax: nat)
    ensures !Bounded(start, MaxTestDuration(1, 400, 50), StartUp(600_000_000, 1, mpsMax), 1)
  {
    assert StartUp(600_000_000, 1, mpsMax) == Plan(1, 600_000_000);
    BoundedExactly(start, 2, Plan(1, 600_000_000), 1);
  }

  /** Without a limit nothing is paced: only the network's own speed keeps a run within the table. */
  lemma UnlimitedIsUnbounded(start: int, seconds: nat, burst: nat, mpsMax: nat)
    requires burst > 0
    ensures StartUp(MPS_UNLIMITED, burst, mpsMax).rate == mpsMax
    ensures !Bounded(start, seconds, StartUp(MPS_UNLIMITED, burst, mpsMax), burst)
  {
    BoundedExactly(start, seconds, StartUp(MPS_UNLIMITED, burst, mpsMax), burst);
  }

  // --- the look ahead ---

  /** The first number of the block after that of number n. */
  function Ahead(n: nat, replyEvery: nat): int
    requires replyEvery > 0
  {
    (n / replyEvery + 1) * replyEvery
  }

  /** The statistics look at the block after the last one used, if there is anything to look at: a
      run that did not get to its first pong request has no replies.  That block is in the table,
      for all runs within the bound, exactly if the slack covers the rest of a block or no run gets
      to a pong request. */
  lemma LookAheadExactly(seconds: nat, rate: nat, replyEvery: nat, burst: nat)
    requires replyEvery > 0
    ensures var bound := seconds * rate + burst;
            (forall n: nat | replyEvery <= n <= bound ::
               Ahead(n, replyEvery) <= MaxSequenceNo(seconds, rate, replyEvery, burst))
            <==> bound < replyEvery || replyEvery <= Slack(replyEvery) + bound % replyEvery
  {
    var bound := seconds * rate + burst;
    AheadIs(bound, replyEvery);
    forall n: nat | n <= bound
      ensures Ahead(n, replyEvery) <= Ahead(bound, replyEvery)
    {
      FloorMono(n, bound, replyEvery);
      MulMono(n / replyEvery + 1, bound / replyEvery + 1, replyEvery);
    }
  }

  lemma AheadIs(n: nat, replyEvery: nat)
    requires replyEvery > 0
    ensures Ahead(n, replyEvery) == n - n % replyEvery + replyEvery
  {
    assert n == n / replyEvery * replyEvery + n % replyEvery;
  }

  /** It does if ten times the reply interval fits 32 bits... */
  lemma SlackCovers(seconds: nat, rate: nat, replyEvery: nat, burst: nat, n: nat)
    requires 0 < replyEvery && 10 * replyEvery < Messages.TWO_32 && n <= seconds * rate + burst
    ensures Ahead(n, replyEvery) <= MaxSequenceNo(seconds, rate, replyEvery, burst)
  {
    AheadIs(n, replyEvery);
    assert 0 <= n % replyEvery;
  }

  /** ... but not always: ten times 429496730 leaves 4, and a run of the shortest test at 2^29 messages
      a second gets beyond its second pong request. */
  lemma SlackCanWrap(mpsMax: nat)
    ensures var plan := StartUp(0x2000_0000, 1, mpsMax);
            var seconds, replyEvery := MaxTestDuration(1, 400, 50), 429_496_730;
            && Slack(replyEvery) == 4
            && exists n: nat :: replyEvery <= n <= seconds * plan.rate + 1 &&
                 Ahead(n, replyEvery) > MaxSequenceNo(seconds, plan.rate, replyEvery, 1)
  {
    LookAheadExactly(2, 0x2000_0000, 429_496_730, 1);
  }
}
