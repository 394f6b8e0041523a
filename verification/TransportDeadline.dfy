/** The receive loops of src/wifi_transport.cpp and src/native_ethernet_transport.cpp.

    Both poll for a packet until a timeout in milliseconds has passed.  The WiFi loop subtracts
    32-bit readings and lets C convert the `int` timeout to unsigned; the Ethernet loop subtracts
    64-bit times.  Instants are true milliseconds since power-up; the WiFi loop sees them modulo
    2^32.  Packet arrivals and the clock are an arbitrary environment.
 */
module TransportDeadline {

  import opened Common

  /** `millis() - start_time < timeout`, all three operands as 32-bit unsigned words. */
  predicate WifiWaits(start: nat, now: nat, timeout: int32) {
    (now % WORD - start % WORD) % WORD < timeout % WORD
  }

  /** `(uxr_millis() - start_time) < ((int64_t) timeout)`. */
  predicate EthernetWaits(start: nat, now: nat, timeout: int32) {
    now - start < timeout
  }

  lemma WrappedDifference(start: nat, now: nat)
    requires start <= now
    ensures (now % WORD - start % WORD) % WORD == (now - start) % WORD
  {
    assert now == now / WORD * WORD + now % WORD;
    assert start == start / WORD * WORD + start % WORD;
  }

  /** For a non-negative timeout the two tests agree, across any wrap of `millis()`, until true
      elapsed time reaches 2^32; from then on they agree exactly while the WiFi remainder is past
      the timeout. */
  lemma DecisionsAgreeIff(start: nat, now: nat, timeout: int32)
    requires start <= now && timeout >= 0
    ensures WifiWaits(start, now, timeout) == EthernetWaits(start, now, timeout) <==>
            now - start < WORD || timeout <= (now - start) % WORD
  {
    WrappedDifference(start, now);
  }

  /** Within one counter period the tests make the same decision at every instant exactly for the
      non-negative timeouts: a negative one makes the WiFi loop wait and the Ethernet loop not. */
  lemma SameDecisionsIff(timeout: int32, start: nat)
    ensures (forall now: nat :: start <= now < start + WORD ==>
               WifiWaits(start, now, timeout) == EthernetWaits(start, now, timeout)) <==> timeout >= 0
  {
    if timeout >= 0 {
      forall now: nat | start <= now < start + WORD
        ensures WifiWaits(start, now, timeout) == EthernetWaits(start, now, timeout)
      {
        DecisionsAgreeIff(start, now, timeout);
      }
    } else {
      assert WifiWaits(start, start, timeout) && !EthernetWaits(start, start, timeout);
    }
  }

  // ----- the polling loops -----

  /** One run of a polling loop: what the clock shows at the i-th test of the guard, and what
      parsePacket returns the i-th time. */
  datatype Env = Env(clock: nat -> nat, packet: nat -> int)

  /** The first test comes within one counter period of the start, `delay(1)` advances the clock
      between tests, and no pass takes longer than `longest`. */
  ghost predicate Bounded(e: Env, start: nat, longest: int) {
    && start <= e.clock(0) < start + WORD
    && (forall i: nat, j: nat :: j == i + 1 ==> e.clock(i) < e.clock(j) <= e.clock(i) + longest)
  }

  /** No pass jumps over the whole span in which the wrapped deadline reads as expired; a timeout of
      zero is always expired. */
  predicate Short(longest: int, timeout: int32) {
    timeout == 0 || longest <= WORD - timeout % WORD
  }

  ghost predicate WifiStopsAt(e: Env, start: nat, timeout: int32, n: nat) {
    && (forall i: nat :: i < n ==> WifiWaits(start, e.clock(i), timeout) && e.packet(i) == 0)
    && !(WifiWaits(start, e.clock(n), timeout) && e.packet(n) == 0)
  }

  ghost predicate EthernetStopsAt(e: Env, start: nat, timeout: int32, n: nat) {
    && (forall i: nat :: i < n ==> EthernetWaits(start, e.clock(i), timeout) && e.packet(i) == 0)
    && !(EthernetWaits(start, e.clock(n), timeout) && e.packet(n) == 0)
  }

  /** The timeout as C converts it: a negative one becomes a very long one. */
  function UnsignedTimeout(timeout: int32): nat {
    if timeout < 0 then WORD + timeout else timeout
  }

  lemma WaitsWithinPeriod(start: nat, now: nat, timeout: int32)
    requires start <= now < start + WORD
    ensures WifiWaits(start, now, timeout) <==> now - start < UnsignedTimeout(timeout)
    ensures timeout % WORD == UnsignedTimeout(timeout)
  {
    WrappedDifference(start, now);
  }

  /** The WiFi loop terminates, and within one counter period of its start: at the first packet or at
      the first test that comes no sooner than the timeout. */
  method WifiPoll(e: Env, start: nat, timeout: int32, ghost longest: int) returns (n: nat)
    requires Bounded(e, start, longest) && Short(longest, timeout)
    ensures WifiStopsAt(e, start, timeout, n)
    ensures e.clock(n) < start + WORD
    ensures forall i: nat :: i < n ==> e.packet(i) == 0
    ensures e.packet(n) != 0 || e.clock(n) - start >= UnsignedTimeout(timeout)
    ensures n > 0 ==> e.clock(n - 1) - start < UnsignedTimeout(timeout)
  {
    n := 0;
    while WifiWaits(start, e.clock(n), timeout) && e.packet(n) == 0
      invariant start <= e.clock(n) < start + WORD
      invariant n > 0 ==> start <= e.clock(n - 1) && e.clock(n - 1) - start < UnsignedTimeout(timeout)
      invariant forall i: nat :: i < n ==> WifiWaits(start, e.clock(i), timeout) && e.packet(i) == 0
      decreases start + WORD - e.clock(n)
    {
      WaitsWithinPeriod(start, e.clock(n), timeout);
      n := n + 1;
    }
    WaitsWithinPeriod(start, e.clock(n), timeout);
  }

  /** The Ethernet loop terminates whenever the clock advances at all. */
  method EthernetPoll(e: Env, start: nat, timeout: int32) returns (n: nat)
    requires forall i: nat, j: nat :: j == i + 1 ==> e.clock(i) < e.clock(j)
    ensures EthernetStopsAt(e, start, timeout, n)
    ensures forall i: nat :: i < n ==> e.clock(i) - start < timeout && e.packet(i) == 0
    ensures e.packet(n) != 0 || e.clock(n) - start >= timeout
  {
    n := 0;
    while EthernetWaits(start, e.clock(n), timeout) && e.packet(n) == 0
      invariant forall i: nat :: i < n ==> EthernetWaits(start, e.clock(i), timeout) && e.packet(i) == 0
      decreases start + timeout - e.clock(n)
    {
      n := n + 1;
    }
  }

  // ----- when the WiFi loop terminates -----

  ghost predicate WifiStops(e: Env, start: nat, timeout: int32) {
    exists n: nat :: WifiStopsAt(e, start, timeout, n)
  }

  /** The loop stops at some test from the n-th on, if it has not stopped before. */
  lemma {:induction false} StopsFrom(e: Env, start: nat, timeout: int32, longest: int, n: nat)
    requires Bounded(e, start, longest) && Short(longest, timeout)
    requires start <= e.clock(n) < start + WORD
    requires forall i: nat :: i < n ==> WifiWaits(start, e.clock(i), timeout) && e.packet(i) == 0
    ensures WifiStops(e, start, timeout)
    decreases start + WORD - e.clock(n)
  {
    if WifiWaits(start, e.clock(n), timeout) && e.packet(n) == 0 {
      WrappedDifference(start, e.clock(n));
      StopsFrom(e, start, timeout, longest, n + 1);
    } else {
      assert WifiStopsAt(e, start, timeout, n);
    }
  }

  /** Elapsed time at the i-th test of a clock that ticks while the deadline is ahead and skips the
      span in which it has passed. */
  function Skipping(t: nat, i: nat): nat
    requires 0 < t < WORD
  {
    if i == 0 then 0
    else if Skipping(t, i - 1) % WORD + 1 < t then Skipping(t, i - 1) + 1
    else Skipping(t, i - 1) + (WORD - t + 1)
  }

  lemma Remainder(q: nat, r: nat)
    requires r < WORD
    ensures (q * WORD + r) % WORD == r
  {
  }

  lemma {:induction false} SkippingNeverExpires(t: nat, i: nat)
    requires 0 < t < WORD
    ensures Skipping(t, i) % WORD < t
    decreases i
  {
    if i == 0 {
    } else {
      var before := Skipping(t, i - 1);
      SkippingNeverExpires(t, i - 1);
      if before % WORD + 1 < t {
        Remainder(before / WORD, before % WORD + 1);
      } else {
        Remainder(before / WORD + 1, 0);
      }
    }
  }

  /** It ticks until the deadline, and then skips to the end of the period. */
  lemma {:induction false} SkippingTicks(t: nat, i: nat)
    requires 0 < t < WORD && i <= t
    ensures Skipping(t, i) == if i < t then i else WORD
    decreases i
  {
    if i == 0 {
    } else {
      SkippingTicks(t, i - 1);
    }
  }

  function SkippingEnv(start: nat, t: nat, packet: nat -> int): Env
    requires 0 < t < WORD
  {
    Env((i: nat) => start + Skipping(t, i), packet)
  }

  lemma SkippingIsBounded(start: nat, t: nat, packet: nat -> int, longest: int)
    requires 0 < t < WORD && WORD - t < longest
    ensures Bounded(SkippingEnv(start, t, packet), start, longest)
  {
  }

  lemma SkippingWaits(start: nat, timeout: int32, i: nat)
    requires timeout != 0
    ensures WifiWaits(start, start + Skipping(timeout % WORD, i), timeout)
  {
    SkippingNeverExpires(timeout % WORD, i);
    WrappedDifference(start, start + Skipping(timeout % WORD, i));
  }

  /** Main result: the WiFi loop terminates whatever the environment does exactly when no pass can be
      long enough to skip the span in which the wrapped deadline reads as expired. */
  lemma WifiTerminatesIff(start: nat, timeout: int32, longest: int)
    ensures (forall e :: Bounded(e, start, longest) ==> WifiStops(e, start, timeout)) <==> Short(longest, timeout)
  {
    if Short(longest, timeout) {
      forall e | Bounded(e, start, longest) ensures WifiStops(e, start, timeout) {
        StopsFrom(e, start, timeout, longest, 0);
      }
    } else {
      var e := SkippingEnv(start, timeout % WORD, (i: nat) => 0);
      SkippingIsBounded(start, timeout % WORD, (i: nat) => 0, longest);
      forall n: nat ensures !WifiStopsAt(e, start, timeout, n) {
        SkippingWaits(start, timeout, n);
      }
      assert Bounded(e, start, longest) && !WifiStops(e, start, timeout);
    }
  }

  /** In particular passes of a full counter period can keep the loop going for ever. */
  lemma WifiMayNeverStop(start: nat, timeout: int32)
    requires timeout != 0
    ensures exists e :: Bounded(e, start, WORD) && !WifiStops(e, start, timeout)
  {
    WifiTerminatesIff(start, timeout, WORD);
  }

  // ----- when the two loops stop together -----

  lemma {:induction false} ClockIncreases(e: Env, start: nat, longest: int, i: nat, j: nat)
    requires Bounded(e, start, longest) && i <= j
    ensures e.clock(i) <= e.clock(j)
    decreases j
  {
    if i == j {
    } else {
      ClockIncreases(e, start, longest, i, j - 1);
      assert e.clock(j - 1) < e.clock(j);
    }
  }

  /** The WiFi loop never stops before the Ethernet loop, and stops with it exactly if there is a
      packet or the wrapped deadline has passed too. */
  lemma StopTogetherIff(e: Env, start: nat, timeout: int32, longest: int, n: nat, k: nat)
    requires Bounded(e, start, longest)
    requires WifiStopsAt(e, start, timeout, n) && EthernetStopsAt(e, start, timeout, k)
    ensures k <= n
    ensures n == k <==> e.packet(k) != 0 || !WifiWaits(start, e.clock(k), timeout)
  {
    forall i: nat | i < k ensures WifiWaits(start, e.clock(i), timeout) && e.packet(i) == 0 {
      ClockIncreases(e, start, longest, 0, i);
      DecisionsAgreeIff(start, e.clock(i), timeout);
    }
  }

  /** Without a long pass the test at which the Ethernet loop times out comes within one period. */
  lemma TimeoutIsShared(e: Env, start: nat, timeout: int32, longest: int, k: nat)
    requires Bounded(e, start, longest) && timeout >= 0 && Short(longest, timeout)
    requires EthernetStopsAt(e, start, timeout, k) && !EthernetWaits(start, e.clock(k), timeout)
    ensures !WifiWaits(start, e.clock(k), timeout)
  {
    ClockIncreases(e, start, longest, 0, k);
    if timeout > 0 && k > 0 {
      assert EthernetWaits(start, e.clock(k - 1), timeout);
      assert e.clock(k) <= e.clock(k - 1) + longest;
    }
    DecisionsAgreeIff(start, e.clock(k), timeout);
  }

  ghost predicate StopTogether(e: Env, start: nat, timeout: int32) {
    forall n: nat, k: nat :: WifiStopsAt(e, start, timeout, n) && EthernetStopsAt(e, start, timeout, k) ==> n == k
  }

  /** With a negative timeout only the WiFi loop waits for the packet after the first test. */
  lemma NegativeTimeoutParts(start: nat, timeout: int32, longest: int)
    requires longest >= 1 && timeout < 0
    ensures exists e :: Bounded(e, start, longest) && !StopTogether(e, start, timeout)
  {
    var e := Env((i: nat) => start + i, (i: nat) => if i == 1 then 1 else 0);
    assert WifiWaits(start, e.clock(0), timeout);
    assert EthernetStopsAt(e, start, timeout, 0) && WifiStopsAt(e, start, timeout, 1);
    assert Bounded(e, start, longest) && !StopTogether(e, start, timeout);
  }

  /** When the clock skips the deadline only the WiFi loop waits for the packet after it. */
  lemma LongPassParts(start: nat, timeout: int32, longest: int)
    requires timeout >= 0 && !Short(longest, timeout)
    ensures exists e :: Bounded(e, start, longest) && !StopTogether(e, start, timeout)
  {
    var packet := (i: nat) => if i == timeout + 1 then 1 else 0;
    var e := SkippingEnv(start, timeout, packet);
    SkippingIsBounded(start, timeout, packet, longest);
    forall i: nat | i <= timeout ensures EthernetWaits(start, e.clock(i), timeout) <==> i < timeout {
      SkippingTicks(timeout, i);
    }
    forall i: nat ensures WifiWaits(start, e.clock(i), timeout) {
      SkippingWaits(start, timeout, i);
    }
    assert EthernetStopsAt(e, start, timeout, timeout) && WifiStopsAt(e, start, timeout, timeout + 1);
    assert Bounded(e, start, longest) && !StopTogether(e, start, timeout);
  }

  /** Main result: whatever the environment does, and however often `millis()` wraps, the two loops
      leave at the same test exactly when the timeout is not negative and no pass can skip the span
      in which the wrapped deadline reads as expired. */
  lemma LoopsStopTogetherIff(start: nat, timeout: int32, longest: int)
    requires longest >= 1
    ensures (forall e :: Bounded(e, start, longest) ==> StopTogether(e, start, timeout)) <==>
            timeout >= 0 && Short(longest, timeout)
  {
    if timeout >= 0 && Short(longest, timeout) {
      forall e | Bounded(e, start, longest) ensures StopTogether(e, start, timeout) {
        forall n: nat, k: nat | WifiStopsAt(e, start, timeout, n) && EthernetStopsAt(e, start, timeout, k)
          ensures n == k
        {
          StopTogetherIff(e, start, timeout, longest, n, k);
          if e.packet(k) == 0 {
            TimeoutIsShared(e, start, timeout, longest, k);
          }
        }
      }
    } else if timeout < 0 {
      NegativeTimeoutParts(start, timeout, longest);
    } else {
      LongPassParts(start, timeout, longest);
    }
  }

  // ----- the byte counts returned -----

  /** `received` is what the UDP client's read returned: a count, or negative on error. */
  function WifiCount(received: int32): nat {
    if received < 0 then 0 else received
  }

  /** The Ethernet version stores the result in a `size_t` (32 bits on these boards) before it
      tests for a negative value, so the test never fires. */
  function EthernetCount(available: bool, received: int32): nat {
    if available then received % WORD else 0
  }

  /** The Ethernet read reports a count within the buffer, and the same count as the WiFi read,
      exactly when the client did not report an error. */
  lemma EthernetCountIsSoundIff(len: nat, received: int32)
    requires received <= len < HALF_WORD
    ensures EthernetCount(true, received) <= len <==> received >= 0
    ensures EthernetCount(true, received) == WifiCount(received) <==> received >= 0
    ensures WifiCount(received) <= len
  {
  }
}
