/** The microsecond clock of src/default_transport.cpp.

    A board's `micros()` is a 32-bit counter that wraps.  `clock_gettime` counts the wraps it
    observes in a second 32-bit word and scales that count by 2^32 - 1.  The module proves what
    the reported time is worth: exactly when it never runs backwards, exactly when it stalls, and
    exactly when it equals true time minus the number of wraps.
 */
module RolloverClock {

  import opened Common

  const DOUBLE_WORD: int := 0x1_0000_0000_0000_0000

  // The source's micro_rollover_useconds: one less than the period of the counter.
  const ROLLOVER_USECONDS: int := 4294967295

  /** The two static variables of clock_gettime. */
  datatype Statics = Statics(rollover: uint32, last: uint32)

  const FRESH := Statics(0, 0)

  /** The statics after one call that reads `m` from the counter. */
  function Advance(s: Statics, m: uint32): Statics {
    Statics(if m < s.last then (s.rollover + 1) % WORD else s.rollover, m)
  }

  /** The 64-bit microsecond count computed from the statics as a call leaves them. */
  function RealMicros(s: Statics): int {
    (s.last + s.rollover * ROLLOVER_USECONDS) % DOUBLE_WORD
  }

  class Clock {
    var rollover: uint32
    var lastMeasure: uint32

    ghost function View(): Statics
      reads this
    {
      Statics(rollover, lastMeasure)
    }

    constructor ()
      ensures View() == FRESH
    {
      rollover, lastMeasure := 0, 0;
    }

    /** `m` stands for the value `micros()` returns. */
    method GetTime(m: uint32) returns (sec: nat, nsec: nat)
      modifies this
      ensures View() == Advance(old(View()), m)
      ensures sec * 1000000 + nsec / 1000 == RealMicros(View())
      ensures nsec < 1000000000 && nsec % 1000 == 0
    {
      if m < lastMeasure {
        rollover := (rollover + 1) % WORD;
      }
      var realUs := (m + rollover * ROLLOVER_USECONDS) % DOUBLE_WORD;
      sec := realUs / 1000000;
      nsec := realUs % 1000000 * 1000;
      lastMeasure := m;
    }
  }

  /** The 64-bit count never truncates: two full words fit. */
  lemma MicrosDoNotTruncate(s: Statics)
    ensures RealMicros(s) == s.last + s.rollover * ROLLOVER_USECONDS
  {
    assert s.rollover * ROLLOVER_USECONDS <= (WORD - 1) * ROLLOVER_USECONDS;
  }

  /** One call runs time backwards exactly when it wraps the wrap counter itself. */
  lemma StepIsMonotoneIff(s: Statics, m: uint32)
    ensures RealMicros(s) <= RealMicros(Advance(s, m)) <==> !(m < s.last && s.rollover == WORD - 1)
  {
    MicrosDoNotTruncate(s);
    MicrosDoNotTruncate(Advance(s, m));
  }

  /** Because the scale is 2^32 - 1 and not 2^32, two distinct instants can report the same time:
      this happens exactly across a wrap from the largest counter value to zero. */
  lemma StepStallsIff(s: Statics, m: uint32)
    ensures RealMicros(s) == RealMicros(Advance(s, m)) <==>
            m == s.last || (m == 0 && s.last == WORD - 1 && s.rollover < WORD - 1)
  {
    MicrosDoNotTruncate(s);
    MicrosDoNotTruncate(Advance(s, m));
  }

  // ----- runs of calls -----

  /** The times reported by successive calls reading `ms`. */
  function Run(s: Statics, ms: seq<uint32>): (r: seq<int>)
    ensures |r| == |ms|
    decreases ms
  {
    if ms == [] then [] else
      var s' := Advance(s, ms[0]);
      [RealMicros(s')] + Run(s', ms[1..])
  }

  /** How often the counter is seen to fall. */
  function Descents(last: uint32, ms: seq<uint32>): nat
    decreases ms
  {
    if ms == [] then 0 else (if ms[0] < last then 1 else 0) + Descents(ms[0], ms[1..])
  }

  ghost predicate NonDecreasing(r: seq<int>) {
    forall i, j :: 0 <= i <= j < |r| ==> r[i] <= r[j]
  }

  lemma NonDecreasingCons(x: int, r: seq<int>)
    requires r != []
    ensures NonDecreasing([x] + r) <==> x <= r[0] && NonDecreasing(r)
  {
    var xr := [x] + r;
    if NonDecreasing(xr) {
      assert xr[0] <= xr[1];
      forall i, j | 0 <= i <= j < |r| ensures r[i] <= r[j] {
        assert xr[i + 1] <= xr[j + 1];
      }
    }
  }

  lemma {:induction false} RunFromIsMonotoneIff(s: Statics, ms: seq<uint32>)
    ensures NonDecreasing([RealMicros(s)] + Run(s, ms)) <==> s.rollover + Descents(s.last, ms) < WORD
    decreases ms
  {
    if ms == [] {
    } else {
      var s' := Advance(s, ms[0]);
      StepIsMonotoneIff(s, ms[0]);
      RunFromIsMonotoneIff(s', ms[1..]);
      NonDecreasingTwo(RealMicros(s), RealMicros(s'), Run(s', ms[1..]));
    }
  }

  lemma NonDecreasingTwo(x: int, y: int, r: seq<int>)
    ensures NonDecreasing([x] + ([y] + r)) <==> x <= y && NonDecreasing([y] + r)
  {
    NonDecreasingCons(x, [y] + r);
  }

  /** Main result: the times reported over any call sequence never decrease, unless the counter is
      seen to fall 2^32 times, and then they do decrease. */
  lemma RunIsMonotoneIff(ms: seq<uint32>)
    ensures NonDecreasing(Run(FRESH, ms)) <==> Descents(0, ms) < WORD
  {
    RunFromIsMonotoneIff(FRESH, ms);
    if ms != [] {
      NonDecreasingCons(RealMicros(FRESH), Run(FRESH, ms));
      StepIsMonotoneIff(FRESH, ms[0]);
    }
  }

  /** Readings that fall `n` times. */
  function Falling(n: nat): seq<uint32> {
    if n == 0 then [] else [1, 0] + Falling(n - 1)
  }

  lemma {:induction false} FallingFalls(n: nat)
    ensures Descents(0, Falling(n)) == n
    decreases n
  {
    if n == 0 {
    } else {
      var ms, rest := Falling(n), Falling(n - 1);
      FallingFalls(n - 1);
      assert ms[1..] == [0] + rest && ms[1..][1..] == rest;
    }
  }

  /** There are readings for which the reported times do decrease: 2^32 falls in a row. */
  lemma TimeMayRunBackwards()
    ensures !NonDecreasing(Run(FRESH, Falling(WORD)))
  {
    FallingFalls(WORD);
    RunIsMonotoneIff(Falling(WORD));
  }

  // ----- comparison with true time -----

  function Readings(ts: seq<nat>): (ms: seq<uint32>)
    ensures |ms| == |ts|
  {
    if ts == [] then [] else [ts[0] % WORD] + Readings(ts[1..])
  }

  /** True times follow on from `prev` and fit a 64-bit microsecond count. */
  predicate TimesFrom(prev: nat, ts: seq<nat>)
    decreases ts
  {
    ts != [] ==> prev <= ts[0] < DOUBLE_WORD && TimesFrom(ts[0], ts[1..])
  }

  /** Consecutive calls are less than one counter period apart. */
  predicate CalledOften(prev: nat, ts: seq<nat>)
    decreases ts
  {
    ts != [] ==> ts[0] - prev < WORD && CalledOften(ts[0], ts[1..])
  }

  /** Every report equals true time minus the number of wraps so far. */
  predicate ReportsTrueTimeLessWraps(ts: seq<nat>, reports: seq<int>)
    requires |reports| == |ts|
  {
    forall i :: 0 <= i < |ts| ==> reports[i] == ts[i] - ts[i] / WORD
  }

  /** The source's test `m < last_measure` detects the wraps between two instants exactly when
      they are less than one period apart. */
  lemma WrapTestIsExactIff(t: nat, t': nat)
    requires t <= t'
    ensures t' / WORD - t / WORD == (if t' % WORD < t % WORD then 1 else 0) <==> t' - t < WORD
  {
    assert t == t / WORD * WORD + t % WORD;
    assert t' == t' / WORD * WORD + t' % WORD;
  }

  lemma {:induction false} ReportedFromIff(s: Statics, prev: nat, ts: seq<nat>)
    requires s.rollover == prev / WORD && s.last == prev % WORD
    requires TimesFrom(prev, ts)
    ensures ReportsTrueTimeLessWraps(ts, Run(s, Readings(ts))) <==> CalledOften(prev, ts)
    decreases ts
  {
    if ts == [] {
    } else {
      var t, ms := ts[0], Readings(ts);
      var s', r := Advance(s, ms[0]), Run(s, ms);
      assert ms[1..] == Readings(ts[1..]) && r[1..] == Run(s', Readings(ts[1..]));
      WrapTestIsExactIff(prev, t);
      MicrosDoNotTruncate(s');
      assert t - t / WORD == t % WORD + t / WORD * ROLLOVER_USECONDS;
      if t - prev < WORD {
        assert s'.rollover == t / WORD;
        ReportedFromIff(s', t, ts[1..]);
        TailReports(ts, r);
      } else {
        assert r[0] != t - t / WORD;
      }
    }
  }

  lemma TailReports(ts: seq<nat>, r: seq<int>)
    requires |r| == |ts| && ts != []
    ensures ReportsTrueTimeLessWraps(ts, r) <==>
            r[0] == ts[0] - ts[0] / WORD && ReportsTrueTimeLessWraps(ts[1..], r[1..])
  {
    if r[0] == ts[0] - ts[0] / WORD && ReportsTrueTimeLessWraps(ts[1..], r[1..]) {
      forall i | 0 <= i < |ts| ensures r[i] == ts[i] - ts[i] / WORD {
        assert i > 0 ==> r[i] == r[1..][i - 1] && ts[i] == ts[1..][i - 1];
      }
    } else if ReportsTrueTimeLessWraps(ts, r) {
      forall i | 0 <= i < |ts[1..]| ensures r[1..][i] == ts[1..][i] - ts[1..][i] / WORD {
        assert r[i + 1] == ts[i + 1] - ts[i + 1] / WORD;
      }
      assert false;
    }
  }

  /** Main result: over any sequence of true times from power-up, every report is true time minus
      the number of wraps exactly when no two calls are 2^32 microseconds or more apart. */
  lemma ReportedTimeIff(ts: seq<nat>)
    requires TimesFrom(0, ts)
    ensures ReportsTrueTimeLessWraps(ts, Run(FRESH, Readings(ts))) <==> CalledOften(0, ts)
  {
    ReportedFromIff(FRESH, 0, ts);
  }
}
