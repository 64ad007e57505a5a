/** The millisecond clock that is extended across the wraps of the 32-bit microsecond counter. */
module Millis {

  const WRAP := 0x1_0000_0000

  /** 2^32 microseconds are this many milliseconds and 296 microseconds. */
  const PER_WRAP := 4294967

  /** system_get_time() at t microseconds after the start. */
  function Micros(t: nat): (m: nat)
    ensures m < WRAP
  {
    t % WRAP
  }

  datatype Counter = Counter(count: nat, last: nat)

  /** micros_overflow_tick at time t. */
  function Tick(c: Counter, t: nat): Counter {
    Counter(if Micros(t) < c.last then (c.count + 1) % WRAP else c.count, Micros(t))
  }

  /** millis at time t. */
  function Now(c: Counter, t: nat): nat {
    var wraps := (c.count + if Micros(t) < c.last then 1 else 0) % WRAP;
    (wraps * PER_WRAP + Micros(t) / 1000) % WRAP
  }

  /** The clock as it should be at time t. */
  function True(t: nat): Counter {
    Counter(t / WRAP % WRAP, Micros(t))
  }

  /** What millis means, before its own wrap. */
  function Value(t: nat): nat {
    t / WRAP * PER_WRAP + Micros(t) / 1000
  }

  /** The clock after ticks at the given times, starting from zero. */
  function Run(times: seq<nat>): Counter {
    if times == [] then Counter(0, 0) else Tick(Run(times[..|times| - 1]), times[|times| - 1])
  }

  function Last(times: seq<nat>): nat {
    if times == [] then 0 else times[|times| - 1]
  }

  /** Ticks go forward, less than one wrap apart. */
  predicate Spaced(times: seq<nat>) {
    times == [] ||
    (Spaced(times[..|times| - 1]) && Last(times[..|times| - 1]) <= Last(times) < Last(times[..|times| - 1]) + WRAP)
  }

  lemma Wraps(s: nat, t: nat)
    requires s <= t
    ensures t < s + WRAP <==> t / WRAP == s / WRAP + if Micros(t) < Micros(s) then 1 else 0
  {
    var a, b, m, n := s / WRAP, t / WRAP, Micros(s), Micros(t);
    assert s == a * WRAP + m && t == b * WRAP + n;
  }

  /** A tick keeps a true clock true exactly if it comes less than a wrap after the one before. The count itself wraps,
      so a delay of 2^32 wraps more would go unnoticed too. */
  lemma TickExact(s: nat, t: nat)
    requires s <= t < s + WRAP * WRAP - WRAP
    ensures Tick(True(s), t) == True(t) <==> t < s + WRAP
  {
    Wraps(s, t);
    var a, b := s / WRAP, t / WRAP;
    assert a <= b < a + WRAP;
    var step := if Micros(t) < Micros(s) then 1 else 0;
    assert (a % WRAP + step) % WRAP == (a + step) % WRAP;
    SameResidue(a + step, b);
  }

  lemma SameResidue(a: nat, b: nat)
    requires a <= b + 1 && b < a + WRAP
    ensures a % WRAP == b % WRAP <==> a == b
  {
    var p, q := a / WRAP, b / WRAP;
    assert a == p * WRAP + a % WRAP && b == q * WRAP + b % WRAP;
  }

  lemma {:induction false} RunIsTrue(times: seq<nat>)
    requires Spaced(times)
    ensures Run(times) == True(Last(times))
  {
    if times != [] {
      RunIsTrue(times[..|times| - 1]);
      TickExact(Last(times[..|times| - 1]), Last(times));
    }
  }

  /** In every run, up to a wrap behind the last tick, millis is its value modulo 2^32. */
  lemma MillisInEveryRun(times: seq<nat>, t: nat)
    requires Spaced(times) && Last(times) <= t < Last(times) + WRAP
    ensures Now(Run(times), t) == Value(t) % WRAP
  {
    RunIsTrue(times);
    TrueNow(Last(times), t);
  }

  lemma TrueNow(s: nat, t: nat)
    requires s <= t < s + WRAP
    ensures Now(True(s), t) == Value(t) % WRAP
  {
    Wraps(s, t);
    var step := if Micros(t) < Micros(s) then 1 else 0;
    var w := t / WRAP;
    assert (s / WRAP % WRAP + step) % WRAP == w % WRAP;
    ModMul(w, PER_WRAP, Micros(t) / 1000);
  }

  lemma ModMul(w: nat, k: nat, x: nat)
    ensures (w % WRAP * k + x) % WRAP == (w * k + x) % WRAP
  {
    var q, r := w / WRAP, w % WRAP;
    assert w * k + x == (q * k) * WRAP + (r * k + x) by {
      assert w == q * WRAP + r;
    }
    Shift(q * k, r * k + x);
  }

  lemma Shift(n: nat, y: nat)
    ensures (n * WRAP + y) % WRAP == y % WRAP
  {}

  /** The value never goes back, also not across a wrap. */
  lemma Monotone(s: nat, t: nat)
    requires s <= t
    ensures Value(s) <= Value(t)
  {
    var a, b, m, n := s / WRAP, t / WRAP, Micros(s), Micros(t);
    assert s == a * WRAP + m && t == b * WRAP + n;
    if a == b {
      assert m <= n;
    } else {
      assert b >= a + 1;
    }
  }

  /** How far the value lags behind the milliseconds that have really passed: 296 microseconds for every wrap. */
  lemma Lag(t: nat)
    ensures t / 1000 - Value(t) == (296 * (t / WRAP) + Micros(t) % 1000) / 1000
  {
    var c, m := t / WRAP, Micros(t);
    assert t == c * WRAP + m && m == m / 1000 * 1000 + m % 1000;
    assert t == 1000 * Value(t) + (296 * c + m % 1000);
  }

  /** An interrupt that reads the clock between the two stores of a tick reads right exactly if the tick has seen no
      wrap; otherwise it counts the wrap twice. */
  lemma ReadInsideTick(s: nat, t: nat, u: nat)
    requires s <= t <= u < s + WRAP
    ensures var half := Counter(Tick(True(s), t).count, True(s).last);
            Now(half, u) == Value(u) % WRAP <==> t / WRAP == s / WRAP
  {
    Wraps(s, t);
    if t / WRAP == s / WRAP {
      TrueNow(s, u);
    } else {
      CountedTwice(s, t, u);
    }
  }

  lemma CountedTwice(s: nat, t: nat, u: nat)
    requires s <= t <= u < s + WRAP && t / WRAP != s / WRAP
    ensures Now(Counter(Tick(True(s), t).count, True(s).last), u) == (Value(u) + PER_WRAP) % WRAP
    ensures (Value(u) + PER_WRAP) % WRAP != Value(u) % WRAP
  {
    Wraps(s, t);
    Wraps(s, u);
    TickExact(s, t);
    var w := u / WRAP;
    NextResidue(w);
    ModMul(w + 1, PER_WRAP, Micros(u) / 1000);
    SameResidue(Value(u), Value(u) + PER_WRAP);
  }

  lemma NextResidue(w: nat)
    ensures (w % WRAP + 1) % WRAP == (w + 1) % WRAP
  {}

  class Wiring {
    var microsOverflowCount: nat
    var microsAtLastOverflowTick: nat

    function Clock(): Counter
      reads this
    {
      Counter(microsOverflowCount, microsAtLastOverflowTick)
    }

    constructor ()
      ensures Clock() == True(0)
    {
      microsOverflowCount, microsAtLastOverflowTick := 0, 0;
    }

    /** The timer callback; `t` is the time at which it reads the counter. */
    method MicrosOverflowTick(t: nat)
      modifies this
      ensures Clock() == Tick(old(Clock()), t)
      ensures forall s: nat :: old(Clock()) == True(s) && s <= t < s + WRAP ==> Clock() == True(t)
    {
      var m := Micros(t);
      if m < microsAtLastOverflowTick {
        microsOverflowCount := (microsOverflowCount + 1) % WRAP;
      }
      microsAtLastOverflowTick := m;
      forall s: nat | old(Clock()) == True(s) && s <= t < s + WRAP ensures Clock() == True(t) {
        TickExact(s, t);
      }
    }

    method Millis(t: nat) returns (ms: nat)
      ensures forall s: nat :: Clock() == True(s) && s <= t < s + WRAP ==> ms == Value(t) % WRAP
    {
      var m := Micros(t);
      var c := (microsOverflowCount + if m < microsAtLastOverflowTick then 1 else 0) % WRAP;
      ms := (c * PER_WRAP + m / 1000) % WRAP;
      forall s: nat | Clock() == True(s) && s <= t < s + WRAP ensures ms == Value(t) % WRAP {
        TrueNow(s, t);
      }
    }
  }
}
