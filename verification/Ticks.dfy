// Conversion between nanoseconds and processor ticks (src/ticks.h, src/ticks.cpp), in signed 64-bit
// arithmetic: a result of None means that some intermediate value does not fit.
module Ticks {
  import opened Arith
  import opened Options

  const INT64_MAX: int := 0x7fff_ffff_ffff_ffff
  const NSEC_IN_MSEC: int := 1_000_000

  function Fit(x: int): Option<int> {
    if -INT64_MAX - 1 <= x <= INT64_MAX then Some(x) else None
  }

  /** The small-number form: multiply, then divide. */
  function Small(v: int, a: int, b: int): Option<int>
    requires 0 < b && 0 <= v && 0 <= a
  {
    match Fit(v * a)
    case None => None
    case Some(x) => Some(x / b)
  }

  /** The form for large numbers: whole units first, then the rest. */
  function Large(v: int, a: int, b: int): Option<int>
    requires 0 < b && 0 <= v && 0 <= a
  {
    match (Fit(v / b * a), Small(v % b, a, b))
    case (Some(x), Some(y)) => Fit(x + y)
    case _ => None
  }

  /** MAX_MSEC_CONVERT. */
  function MaxMsecConvert(ticksPerMsec: int): int
    requires 0 < ticksPerMsec
  {
    if ticksPerMsec > NSEC_IN_MSEC then INT64_MAX / ticksPerMsec else INT64_MAX / NSEC_IN_MSEC
  }

  function Nsec2Ticks(nsec: int, ticksPerMsec: int): Option<int>
    requires 0 <= nsec && 0 < ticksPerMsec
  {
    if nsec < MaxMsecConvert(ticksPerMsec) then Small(nsec, ticksPerMsec, NSEC_IN_MSEC)
    else Large(nsec, ticksPerMsec, NSEC_IN_MSEC)
  }

  function Ticks2Nsec(ticks: int, ticksPerMsec: int): Option<int>
    requires 0 <= ticks && 0 < ticksPerMsec
  {
    if ticks < MaxMsecConvert(ticksPerMsec) then Small(ticks, NSEC_IN_MSEC, ticksPerMsec)
    else Large(ticks, NSEC_IN_MSEC, ticksPerMsec)
  }

  /** The exact conversion, rounded down. */
  function Floor(v: int, a: int, b: int): int
    requires 0 < b
  {
    v * a / b
  }

  /** Converting whole units and the rest separately loses nothing. */
  lemma PartsAreExact(v: int, a: int, b: int)
    requires 0 < b && 0 <= v && 0 <= a
    ensures v / b * a + (v % b) * a / b == Floor(v, a, b)
    ensures 0 <= v / b * a <= Floor(v, a, b) && 0 <= (v % b) * a / b
    ensures 0 <= v % b && (v % b) * a <= b * a
  {
    DivMod(v, b);
    PartsOf(v / b, v % b, a, b);
  }

  lemma DivMod(v: int, b: int)
    requires 0 < b && 0 <= v
    ensures 0 <= v / b && v == v / b * b + v % b && 0 <= v % b < b
  {
    FloorAtMost(v, b);
  }

  lemma PartsOf(q: int, r: int, a: int, b: int)
    requires 0 <= q && 0 <= r < b && 0 <= a
    ensures q * a + r * a / b == (q * b + r) * a / b
    ensures 0 <= q * a <= (q * b + r) * a / b && 0 <= r * a / b && r * a <= b * a
  {
    MulMono(0, r, a);
    MulMono(r, b, a);
    MulMono(0, q, a);
    FloorAtMost(r * a, b);
    Distribute(q, r, a, b);
    FloorShift(r * a, q * a, b);
  }

  lemma Distribute(q: int, r: int, a: int, b: int)
    ensures (q * b + r) * a == q * a * b + r * a
  {
    assert (q * b + r) * a == q * b * a + r * a;
    assert q * b * a == q * a * b;
  }

  lemma FloorShift(x: int, k: int, b: int)
    requires 0 < b
    ensures (k * b + x) / b == k + x / b
  {
    FloorIs(x, b, x / b);
    assert (k + x / b) * b == k * b + x / b * b;
    FloorIs(k * b + x, b, k + x / b);
  }

  lemma LargeIsExact(v: int, a: int, b: int)
    requires 0 < b && 0 <= v && 0 <= a && b * a <= INT64_MAX
    ensures Large(v, a, b) == Fit(Floor(v, a, b))
  {
    hide Floor;
    PartsAreExact(v, a, b);
  }

  lemma SmallIsExact(v: int, a: int, b: int)
    requires 0 < b && 0 <= v && 0 <= a && v * a <= INT64_MAX
    ensures Small(v, a, b) == Fit(Floor(v, a, b))
  {
    assert 0 <= v * a by { MulMono(0, v, a); }
    FloorAtMost(v * a, b);
  }

  /** Below the limit for the small-number forms neither of their products overflows. */
  lemma BelowLimit(v: int, t: int)
    requires 0 < t && 0 <= v < MaxMsecConvert(t)
    ensures v * t <= INT64_MAX && v * NSEC_IN_MSEC <= INT64_MAX
  {
    var larger := if t > NSEC_IN_MSEC then t else NSEC_IN_MSEC;
    FloorIs(INT64_MAX, larger, INT64_MAX / larger);
    MulMono(v, INT64_MAX / larger, larger);
    MulMono(t, larger, v);
    MulMono(NSEC_IN_MSEC, larger, v);
    assert v * t == t * v && v * larger == larger * v;
  }

  lemma FitFloor(v: int, a: int, b: int)
    requires 0 <= v && 0 < a && 0 < b
    ensures Floor(v, a, b) == v * a / b >= 0
    ensures Fit(Floor(v, a, b)) == if v * a / b <= INT64_MAX then Some(v * a / b) else None
  {
    MulMono(0, v, a);
    FloorAtMost(v * a, b);
  }

  /** Both conversions, in both branches, are the exact conversion rounded down, and no intermediate
      value overflows unless the result itself does. */
  lemma ConversionsAreExact(v: int, t: int)
    requires 0 <= v && 0 < t && t * NSEC_IN_MSEC <= INT64_MAX
    ensures Nsec2Ticks(v, t) == Fit(Floor(v, t, NSEC_IN_MSEC))
    ensures Ticks2Nsec(v, t) == Fit(Floor(v, NSEC_IN_MSEC, t))
    ensures v * t / NSEC_IN_MSEC <= INT64_MAX ==> Nsec2Ticks(v, t) == Some(v * t / NSEC_IN_MSEC)
    ensures v * t / NSEC_IN_MSEC > INT64_MAX ==> Nsec2Ticks(v, t) == None
    ensures v * NSEC_IN_MSEC / t <= INT64_MAX ==> Ticks2Nsec(v, t) == Some(v * NSEC_IN_MSEC / t)
    ensures v * NSEC_IN_MSEC / t > INT64_MAX ==> Ticks2Nsec(v, t) == None
  {
    hide Floor, Small, Large, Fit;
    FitFloor(v, t, NSEC_IN_MSEC);
    FitFloor(v, NSEC_IN_MSEC, t);
    if v < MaxMsecConvert(t) {
      BelowLimit(v, t);
      SmallIsExact(v, t, NSEC_IN_MSEC);
      SmallIsExact(v, NSEC_IN_MSEC, t);
    } else {
      LargeIsExact(v, t, NSEC_IN_MSEC);
      LargeIsExact(v, NSEC_IN_MSEC, t);
    }
  }

  lemma FloorIsMonotone(v: int, w: int, a: int, b: int)
    requires 0 <= v <= w && 0 <= a && 0 < b
    ensures 0 <= Floor(v, a, b) <= Floor(w, a, b)
  {
    MulMono(0, v, a);
    MulMono(v, w, a);
    FloorAtMost(v * a, b);
    FloorMono(v * a, w * a, b);
  }

  /** Both conversions are monotone, across the two branches. */
  lemma ConversionsAreMonotone(v: int, w: int, t: int)
    requires 0 <= v <= w && 0 < t && t * NSEC_IN_MSEC <= INT64_MAX
    ensures Nsec2Ticks(w, t).Some? ==> Nsec2Ticks(v, t).Some? && Nsec2Ticks(v, t).value <= Nsec2Ticks(w, t).value
    ensures Ticks2Nsec(w, t).Some? ==> Ticks2Nsec(v, t).Some? && Ticks2Nsec(v, t).value <= Ticks2Nsec(w, t).value
  {
    hide Nsec2Ticks, Ticks2Nsec, Floor;
    ConversionsAreExact(v, t);
    ConversionsAreExact(w, t);
    FloorIsMonotone(v, w, t, NSEC_IN_MSEC);
    FloorIsMonotone(v, w, NSEC_IN_MSEC, t);
  }

  /** There and back: nothing is gained, and less than one unit plus what the coarser unit cannot
      resolve is lost. */
  lemma ThereAndBack(v: int, a: int, b: int)
    requires 0 <= v && 0 < a && 0 < b
    ensures var back := Floor(Floor(v, a, b), b, a);
            0 <= back <= v && (v - back) * a < a + b
    ensures 0 <= Floor(v, a, b)
  {
    var there := v * a / b;
    var back := there * b / a;
    assert 0 <= v * a by { MulMono(0, v, a); }
    FloorAtMost(v * a, b);
    FloorIs(v * a, b, there);
    assert 0 <= there * b by { MulMono(0, there, b); }
    FloorAtMost(there * b, a);
    FloorIs(there * b, a, back);
    MulCancel(back, v, a);
    assert (v - back) * a == v * a - back * a;
  }

  /** Nanoseconds to ticks and back, whenever the number of ticks fits. */
  lemma RoundTrip(nsec: int, t: int)
    requires 0 <= nsec <= INT64_MAX && 0 < t && t * NSEC_IN_MSEC <= INT64_MAX
    ensures Nsec2Ticks(nsec, t).Some? ==>
              var ticks := Nsec2Ticks(nsec, t).value;
              && 0 <= ticks && Ticks2Nsec(ticks, t).Some?
              && var back := Ticks2Nsec(ticks, t).value;
                 back <= nsec && (nsec - back) * t < t + NSEC_IN_MSEC
  {
    hide Nsec2Ticks, Ticks2Nsec, Floor;
    ConversionsAreExact(nsec, t);
    ThereAndBack(nsec, t, NSEC_IN_MSEC);
    ConversionsAreExact(Floor(nsec, t, NSEC_IN_MSEC), t);
  }
}
