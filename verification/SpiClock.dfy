/** The search for the SPI clock divider and the cache in front of it. */
module SpiClock {
  import opened Numbers

  const CLOCK: nat := 80_000_000
  const MIN_FREQ: nat := 152
  const MAX_N: nat := 63
  const MAX_PRE: nat := 8191
  const SYS_CLOCK_REG: nat := 0x8000_0000
  const MIN_FREQ_REG: nat := 0x7fff_f000

  /** The fields of the clock register that the search sets; the others stay 0. */
  datatype ClockReg = ClockReg(l: nat, n: nat, pre: nat)

  function Encode(r: ClockReg): nat {
    r.l + r.n * 0x1000 + r.pre * 0x4_0000
  }

  function Div(a: nat, b: nat): nat
    requires b > 0
  {
    a / b
  }

  function Freq(n: nat, pre: nat): nat {
    Div(CLOCK, (pre + 1) * (n + 1))
  }

  predicate InRange(n: nat, pre: nat) {
    1 <= n <= MAX_N && pre <= MAX_PRE
  }

  /** The `vari`-th prescaler tried for divider `n`. */
  function TriedPre(freq: nat, n: nat, vari: int): (pre: nat)
    requires freq > 0
    ensures pre <= MAX_PRE
  {
    var calPre := Div(Div(CLOCK, n + 1), freq) - 1 + vari;
    if calPre > MAX_PRE then MAX_PRE else if calPre <= 0 then 0 else calPre
  }

  function TriedReg(freq: nat, n: nat, vari: int): ClockReg
    requires freq > 0
  {
    ClockReg((n + 1) / 2, n, TriedPre(freq, n, vari))
  }

  datatype Best = Best(reg: ClockReg, freq: nat, exact: bool)

  /** The inner loop: prescalers number `vari` up to 2, stopping at an exact match. */
  function TryPrescalers(freq: nat, n: nat, vari: int, best: Best): Best
    requires freq > 0
    decreases 3 - vari
  {
    if vari > 2 then best
    else
      var reg := TriedReg(freq, n, vari);
      var f := Freq(n, reg.pre);
      if f == freq then Best(reg, best.freq, true)
      else if f < freq && freq - f < freq - best.freq then TryPrescalers(freq, n, vari + 1, Best(reg, f, false))
      else TryPrescalers(freq, n, vari + 1, best)
  }

  /** The outer loop over dividers. */
  function TryDividers(freq: nat, n: nat, best: Best): Best
    requires freq > 0
    decreases MAX_N + 1 - n
  {
    if n > MAX_N then best
    else
      var next := TryPrescalers(freq, n, -1, best);
      if next.exact then next else TryDividers(freq, n + 1, next)
  }

  function Search(freq: nat): ClockReg
    requires freq > 0
  {
    TryDividers(freq, 1, Best(ClockReg(0, 0, 0), 0, false)).reg
  }

  // ---- Arithmetic ----

  lemma MulAssociative(a: nat, b: nat, c: nat)
    ensures a * (b * c) == (a * b) * c
  {}

  lemma DivAtLeast(d: nat, p: nat, f: nat)
    requires p > 0
    ensures Div(d, p) >= f <==> d >= f * p
  {
    var q := d / p;
    assert d == q * p + d % p;
    if q >= f {
      MulMonotone(f, q, p);
    } else {
      MulMonotone(q + 1, f, p);
    }
  }

  lemma DivDiv(d: nat, a: nat, b: nat)
    requires a > 0 && b > 0 && b * a > 0
    ensures Div(d, b * a) == Div(Div(d, a), b)
  {
    hide Div;
    var q := Div(d, b * a);
    DivAtLeast(d, b * a, q);
    DivAtLeast(d, b * a, q + 1);
    MulAssociative(q, b, a);
    MulAssociative(q + 1, b, a);
    DivAtLeast(d, a, q * b);
    DivAtLeast(d, a, (q + 1) * b);
    DivAtLeast(Div(d, a), b, q);
    DivAtLeast(Div(d, a), b, q + 1);
  }

  lemma DivAntitone(d: nat, p: nat, q: nat)
    requires 0 < p <= q
    ensures Div(d, q) <= Div(d, p)
  {
    hide Div;
    var x := Div(d, q);
    DivAtLeast(d, q, x);
    MulMonotone(p, q, x);
    DivAtLeast(d, p, x);
  }

  /** If any prescaler hits the request exactly, the second one tried does; and of those that stay below
      it, none is better than the third one tried. */
  lemma TriedPrescalersSuffice(freq: nat, n: nat, pre: nat)
    requires freq > 0 && InRange(n, pre) && Freq(n, pre) <= freq
    ensures Freq(n, pre) == freq ==> Freq(n, TriedPre(freq, n, 0)) == freq
    ensures Freq(n, pre) < freq ==> Freq(n, pre) <= Freq(n, TriedPre(freq, n, 1)) < freq
  {
    hide Div, TriedPre, Freq;
    var d := Div(CLOCK, n + 1);
    FreqIs(n, pre);
    TriedValues(freq, n);
    if Freq(n, pre) == freq {
      FreqIs(n, TriedPre(freq, n, 0));
      ExactQuotient(d, freq, pre + 1);
      StillExact(d, freq, pre + 1, TriedPre(freq, n, 0) + 1);
    } else {
      FreqIs(n, Div(d, freq));
      BelowQuotient(d, freq, pre + 1);
    }
  }

  lemma ExactQuotient(d: nat, f: nat, p: nat)
    requires f > 0 && p > 0 && Div(d, p) == f
    ensures p <= Div(d, f)
  {
    hide Div;
    DivAtLeast(d, p, f);
    DivAtLeast(d, f, p);
  }

  lemma StillExact(d: nat, f: nat, p: nat, t: nat)
    requires f > 0 && 0 < p <= t <= Div(d, f) && Div(d, p) == f
    ensures Div(d, t) == f
  {
    hide Div;
    DivAtLeast(d, f, t);
    DivAtLeast(d, t, f);
    DivAntitone(d, p, t);
  }

  lemma BelowQuotient(d: nat, f: nat, p: nat)
    requires f > 0 && p > 0 && Div(d, p) < f
    ensures Div(d, f) < p && Div(d, p) <= Div(d, Div(d, f) + 1) < f
  {
    hide Div;
    var q := Div(d, f);
    DivAtLeast(d, p, f);
    DivAtLeast(d, f, p);
    DivAtLeast(d, f, q + 1);
    DivAtLeast(d, q + 1, f);
    DivAntitone(d, q + 1, p);
  }

  lemma FreqIs(n: nat, pre: nat)
    ensures Freq(n, pre) == Div(Div(CLOCK, n + 1), pre + 1)
  {
    hide Div;
    DivDiv(CLOCK, n + 1, pre + 1);
  }

  lemma TriedValues(freq: nat, n: nat)
    requires freq > 0
    ensures var q := Div(Div(CLOCK, n + 1), freq);
            && (q <= MAX_PRE ==> TriedPre(freq, n, 1) == q)
            && TriedPre(freq, n, 0) == if q == 0 then 0 else if q > MAX_PRE then MAX_PRE else q - 1
  {
    hide Div;
  }

  // ---- Optimality ----

  /** A register the search has settled on: its frequency does not exceed the request. */
  ghost predicate Candidate(best: Best, freq: nat) {
    var r := best.reg;
    && r.l == (r.n + 1) / 2
    && if best.exact then InRange(r.n, r.pre) && Freq(r.n, r.pre) == freq
       else if best.freq == 0 then r == ClockReg(0, 0, 0)
       else InRange(r.n, r.pre) && Freq(r.n, r.pre) == best.freq < freq
  }

  /** Nothing with divider `n` at or below the request is faster than `best`. */
  ghost predicate Beats(best: Best, freq: nat, n: nat) {
    forall pre :: InRange(n, pre) && Freq(n, pre) <= freq ==>
      best.exact || (Freq(n, pre) < freq && Freq(n, pre) <= best.freq)
  }

  lemma {:induction false} TryPrescalersKeeps(freq: nat, n: nat, vari: int, best: Best)
    requires 0 < freq < CLOCK && 1 <= n <= MAX_N && -1 <= vari
    requires Candidate(best, freq) && !best.exact && best.freq < freq
    ensures var b := TryPrescalers(freq, n, vari, best);
            && Candidate(b, freq) && best.freq <= b.freq < freq
            && forall k :: vari <= k <= 2 && Freq(n, TriedPre(freq, n, k)) <= freq ==>
                 b.exact || (Freq(n, TriedPre(freq, n, k)) < freq && Freq(n, TriedPre(freq, n, k)) <= b.freq)
    decreases 3 - vari
  {
    hide TriedPre, Freq;
    if vari <= 2 {
      var reg := TriedReg(freq, n, vari);
      var f := Freq(n, reg.pre);
      if f < freq && f > best.freq {
        TryPrescalersKeeps(freq, n, vari + 1, Best(reg, f, false));
      } else if f != freq {
        TryPrescalersKeeps(freq, n, vari + 1, best);
      }
    }
  }

  lemma DividerDone(freq: nat, n: nat, best: Best)
    requires 0 < freq < CLOCK && 1 <= n <= MAX_N
    requires Candidate(best, freq) && !best.exact && best.freq < freq
    ensures var b := TryPrescalers(freq, n, -1, best);
            Candidate(b, freq) && best.freq <= b.freq < freq && Beats(b, freq, n)
  {
    hide TryPrescalers, TriedPre, Freq, Candidate;
    TryPrescalersKeeps(freq, n, -1, best);
    var b := TryPrescalers(freq, n, -1, best);
    forall pre | InRange(n, pre) && Freq(n, pre) <= freq
      ensures b.exact || (Freq(n, pre) < freq && Freq(n, pre) <= b.freq)
    {
      TriedPrescalersSuffice(freq, n, pre);
      assert Freq(n, TriedPre(freq, n, 0)) <= freq ==>
        b.exact || (Freq(n, TriedPre(freq, n, 0)) < freq && Freq(n, TriedPre(freq, n, 0)) <= b.freq);
      assert Freq(n, TriedPre(freq, n, 1)) <= freq ==>
        b.exact || (Freq(n, TriedPre(freq, n, 1)) < freq && Freq(n, TriedPre(freq, n, 1)) <= b.freq);
    }
  }

  lemma {:induction false} TryDividersBest(freq: nat, n: nat, best: Best)
    requires 0 < freq < CLOCK && 1 <= n
    requires Candidate(best, freq) && !best.exact && best.freq < freq
    requires forall m :: 1 <= m < n && m <= MAX_N ==> Beats(best, freq, m)
    ensures var b := TryDividers(freq, n, best);
            Candidate(b, freq) && forall m :: 1 <= m <= MAX_N ==> b.exact || Beats(b, freq, m)
    decreases MAX_N + 1 - n
  {
    hide TryPrescalers, Candidate, Freq;
    if n <= MAX_N {
      DividerDone(freq, n, best);
      var next := TryPrescalers(freq, n, -1, best);
      if !next.exact {
        forall m | 1 <= m < n + 1 ensures Beats(next, freq, m) {
          if m < n {
            assert Beats(best, freq, m);
          }
        }
        TryDividersBest(freq, n + 1, next);
      }
    }
  }

  lemma SlowestSetting(freq: nat)
    requires MIN_FREQ <= freq
    ensures Freq(MAX_N, MAX_PRE) == MIN_FREQ
  {}

  /** For every request from the slowest setting up to the system clock, the register found runs at the
      largest frequency not above the request that any divider 1..63 and prescaler 0..8191 can give. */
  lemma SearchOptimal(freq: nat)
    requires MIN_FREQ <= freq < CLOCK
    ensures var r := Search(freq);
            && InRange(r.n, r.pre) && r.l == (r.n + 1) / 2 && Freq(r.n, r.pre) <= freq
            && forall n, pre :: InRange(n, pre) && Freq(n, pre) <= freq ==> Freq(n, pre) <= Freq(r.n, r.pre)
  {
    hide Freq, TryDividers;
    var start := Best(ClockReg(0, 0, 0), 0, false);
    TryDividersBest(freq, 1, start);
    var b := TryDividers(freq, 1, start);
    SlowestSetting(freq);
    assert b.exact || Beats(b, freq, MAX_N);
    assert InRange(MAX_N, MAX_PRE);
    forall n, pre | InRange(n, pre) && Freq(n, pre) <= freq ensures Freq(n, pre) <= Freq(b.reg.n, b.reg.pre) {
      assert b.exact || Beats(b, freq, n);
    }
  }

  // ---- The class ----

  /** The register content a request leads to. */
  function RegisterFor(freq: nat): nat {
    if freq >= CLOCK then SYS_CLOCK_REG
    else if freq < MIN_FREQ then MIN_FREQ_REG
    else Encode(Search(freq))
  }

  /** The frequency of a register as the hardware reads it, by its bit ranges: 13 bits of prescaler from bit 18 on, and
      6 bits of divider from bit 12 on. */
  function Clock(reg: nat): nat {
    80_000_000 / ((reg / 0x4_0000 % 0x2000 + 1) * (reg / 0x1000 % 0x40 + 1))
  }

  lemma BitRanges(r: ClockReg)
    requires r.l < 0x40 && r.n < 0x40 && r.pre < 0x2000
    ensures var reg := Encode(r);
            && reg % 0x40 == r.l && reg / 0x40 % 0x40 == 0
            && reg / 0x1000 % 0x40 == r.n && reg / 0x4_0000 % 0x2000 == r.pre && reg < 0x8000_0000
  {
    var reg, high := Encode(r), r.n + 0x40 * r.pre;
    assert reg == r.l + 0x1000 * high;
    assert reg / 0x1000 == high && reg / 0x40 == 0x40 * high;
    assert reg / 0x4_0000 == high / 0x40 == r.pre;
  }

  lemma ClockIs(reg: nat)
    ensures Clock(reg) == Freq(reg / 0x1000 % 0x40, reg / 0x4_0000 % 0x2000)
  {}

  /** What reaches the register: the low phase is half of the divider, the high phase and the top bit are 0, and no
      register with a divider of 1 or more runs faster without passing the request. */
  lemma RegisterOptimal(freq: nat)
    requires 152 <= freq < 80_000_000
    ensures var reg := RegisterFor(freq);
            && reg % 0x40 == (reg / 0x1000 % 0x40 + 1) / 2 && reg / 0x40 % 0x40 == 0 && reg < 0x8000_0000
            && reg / 0x1000 % 0x40 >= 1 && Clock(reg) <= freq
            && forall other: nat :: other / 0x1000 % 0x40 >= 1 && Clock(other) <= freq ==> Clock(other) <= Clock(reg)
  {
    hide Search, Encode, Clock, Freq;
    SearchOptimal(freq);
    var r := Search(freq);
    BitRanges(r);
    ClockIs(Encode(r));
    forall other: nat | other / 0x1000 % 0x40 >= 1 && Clock(other) <= freq ensures Clock(other) <= Clock(Encode(r)) {
      ClockIs(other);
    }
  }

  class SpiClass {
    var clockReg: nat
    var sysClockRouted: bool
    var lastSetFrequency: nat
    var lastSetRegister: nat

    /** The cache remembers what the last request led to; bit 9 of GPMUX goes with the register. */
    ghost predicate Valid()
      reads this
    {
      && (sysClockRouted <==> clockReg == SYS_CLOCK_REG)
      && lastSetFrequency < CLOCK
      && (lastSetFrequency > 0 ==> lastSetRegister == RegisterFor(lastSetFrequency))
      && (lastSetFrequency == 0 ==> lastSetRegister == 0 || lastSetRegister == MIN_FREQ_REG)
    }

    constructor (clockReg: nat, routed: bool)
      requires routed <==> clockReg == SYS_CLOCK_REG
      ensures Valid() && this.clockReg == clockReg && lastSetFrequency == 0 && lastSetRegister == 0
    {
      this.clockReg, sysClockRouted, lastSetFrequency, lastSetRegister := clockReg, routed, 0, 0;
    }

    method SetClockDivider(clockDiv: nat)
      requires Valid()
      modifies this
      ensures Valid() && clockReg == clockDiv
      ensures lastSetFrequency == old(lastSetFrequency) && lastSetRegister == old(lastSetRegister)
    {
      sysClockRouted := clockDiv == SYS_CLOCK_REG;
      clockReg := clockDiv;
    }

    /** The register ends up as the search would set it, cached or not, also after direct calls of
        `SetClockDivider`; the one exception is a request for 0 that meets the untouched cache and a
        register that reads 0. */
    method SetFrequency(freq: nat)
      requires Valid()
      modifies this
      ensures Valid()
      ensures clockReg == RegisterFor(freq) <==>
              !(freq == 0 && old(lastSetFrequency) == 0 && old(lastSetRegister) == 0 && old(clockReg) == 0)
      ensures freq >= 80_000_000 ==> clockReg == 0x8000_0000
      ensures 0 < freq < 152 ==> clockReg == 0x7fff_f000
      ensures 152 <= freq < 80_000_000 ==>
                && clockReg % 0x40 == (clockReg / 0x1000 % 0x40 + 1) / 2 && clockReg / 0x40 % 0x40 == 0
                && clockReg < 0x8000_0000 && clockReg / 0x1000 % 0x40 >= 1 && Clock(clockReg) <= freq
                && forall other: nat :: other / 0x1000 % 0x40 >= 1 && Clock(other) <= freq ==>
                     Clock(other) <= Clock(clockReg)
      ensures sysClockRouted <==> clockReg == 0x8000_0000
    {
      hide Search, Clock, Encode;
      if 152 <= freq < 80_000_000 {
        RegisterOptimal(freq);
      }
      if freq >= CLOCK {
        SetClockDivider(SYS_CLOCK_REG);
        return;
      }
      if lastSetFrequency == freq && lastSetRegister == clockReg {
        return;
      }
      if freq < MIN_FREQ {
        SetClockDivider(MIN_FREQ_REG);
        lastSetRegister := clockReg;
        lastSetFrequency := freq;
        return;
      }
      var reg := FindBest(freq);
      SetClockDivider(Encode(reg));
      lastSetRegister := clockReg;
      lastSetFrequency := freq;
    }
  }

  /** The inner loop over prescalers. */
  method TryDivider(freq: nat, calN: nat, start: Best) returns (best: Best)
    requires freq > 0 && !start.exact
    ensures best == TryPrescalers(freq, calN, -1, start)
  {
    hide Freq, TriedPre;
    best := start;
    var calPreVari := -2;
    while calPreVari <= 1
      invariant -2 <= calPreVari <= 2 && !best.exact
      invariant TryPrescalers(freq, calN, -1, start) == TryPrescalers(freq, calN, calPreVari + 1, best)
    {
      calPreVari := calPreVari + 1;
      var reg := TriedReg(freq, calN, calPreVari);
      var calFreq := Freq(calN, reg.pre);
      if calFreq == freq {
        return Best(reg, best.freq, true);
      } else if calFreq < freq && freq - calFreq < freq - best.freq {
        best := Best(reg, calFreq, false);
      }
    }
  }

  method FindBest(freq: nat) returns (bestReg: ClockReg)
    requires MIN_FREQ <= freq < CLOCK
    ensures bestReg == Search(freq)
  {
    hide TryPrescalers;
    var best := Best(ClockReg(0, 0, 0), 0, false);
    var calN := 1;
    while calN <= MAX_N
      invariant 1 <= calN <= MAX_N + 1 && !best.exact
      invariant Search(freq) == TryDividers(freq, calN, best).reg
      decreases MAX_N + 1 - calN
    {
      best := TryDivider(freq, calN, best);
      if best.exact {
        break;
      }
      calN := calN + 1;
    }
    bestReg := best.reg;
  }
}
