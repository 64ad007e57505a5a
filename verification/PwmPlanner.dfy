/** Software PWM: turning the requested duty values into the step table the timer interrupt runs. */
module PwmPlanner {

  const PINS: nat := 17

  type Pin = p: nat | p < PINS

  /** Step lengths and, for all but the last step, the pins switched off when it ends. */
  datatype Plan = Plan(steps: seq<nat>, masks: seq<set<Pin>>)

  ghost predicate WellFormed(plan: Plan) {
    |plan.steps| == |plan.masks| + 1 <= PINS
  }

  predicate Increasing(s: seq<nat>) {
    forall i, j :: 0 <= i < j < |s| ==> s[i] < s[j]
  }

  ghost function Elements(s: seq<nat>): set<nat> {
    set x | x in s
  }

  /** The nonzero values of the active pins, and the range. */
  ghost function Wanted(mask: set<Pin>, values: seq<nat>, range: nat): set<nat>
    requires |values| == PINS
  {
    (set p | p in mask && values[p] != 0 :: values[p]) + {range}
  }

  function Differences(levels: seq<nat>): (d: seq<nat>)
    requires Increasing(levels)
    ensures |d| == |levels|
  {
    seq(|levels|, i requires 0 <= i < |levels| => if i == 0 then levels[0] else levels[i] - levels[i - 1])
  }

  function PinsAt(mask: set<Pin>, values: seq<nat>, value: nat): set<Pin>
    requires |values| == PINS
  {
    set p | p in mask && values[p] == value
  }

  ghost function PlanOf(levels: seq<nat>, mask: set<Pin>, values: seq<nat>): Plan
    requires Increasing(levels) && |levels| > 0 && |values| == PINS
  {
    Plan(Differences(levels), seq(|levels| - 1, i requires 0 <= i < |levels| - 1 => PinsAt(mask, values, levels[i])))
  }

  /** `plan` is the plan for these values: strictly increasing distinct levels turned into steps and masks. */
  ghost predicate IsPlanFor(plan: Plan, mask: set<Pin>, values: seq<nat>, range: nat)
    requires |values| == PINS
  {
    exists levels :: Increasing(levels) && |levels| > 0
      && Elements(levels) == Wanted(mask, values, range) && plan == PlanOf(levels, mask, values)
  }

  lemma NoElements(s: seq<nat>)
    ensures Elements(s) == {} ==> s == []
  {
    if s != [] {
      assert s[0] in Elements(s);
    }
  }

  lemma ElementsAppend(s: seq<nat>, x: nat)
    ensures Elements(s + [x]) == Elements(s) + {x}
  {}

  lemma {:induction false} IncreasingUnique(a: seq<nat>, b: seq<nat>)
    requires Increasing(a) && Increasing(b) && Elements(a) == Elements(b)
    ensures a == b
    decreases |a|
  {
    if a == [] {
      NoElements(b);
    } else {
      assert a[0] in Elements(b) && (b != [] ==> b[0] in Elements(a));
      assert b != [];
      assert a[0] == b[0];
      assert Elements(a[1..]) == Elements(a) - {a[0]};
      assert Elements(b[1..]) == Elements(b) - {b[0]};
      IncreasingUnique(a[1..], b[1..]);
      assert a == [a[0]] + a[1..] && b == [b[0]] + b[1..];
    }
  }

  /** There is only one plan for given values. */
  lemma PlanUnique(p: Plan, q: Plan, mask: set<Pin>, values: seq<nat>, range: nat)
    requires |values| == PINS && IsPlanFor(p, mask, values, range) && IsPlanFor(q, mask, values, range)
    ensures p == q
  {
    var a :| Increasing(a) && |a| > 0 && Elements(a) == Wanted(mask, values, range) && p == PlanOf(a, mask, values);
    var b :| Increasing(b) && |b| > 0 && Elements(b) == Wanted(mask, values, range) && q == PlanOf(b, mask, values);
    IncreasingUnique(a, b);
  }

  // ---- Sorting and removing duplicates in place ----

  predicate Ordered(s: seq<nat>) {
    forall i, j :: 0 <= i < j < |s| ==> s[i] <= s[j]
  }

  /** Entry i taken out and put in at j. */
  function Moved(s: seq<nat>, i: nat, j: nat): (t: seq<nat>)
    requires j <= i < |s|
    ensures |t| == |s|
  {
    s[..j] + [s[i]] + s[j..i] + s[i + 1..]
  }

  lemma MovedAt(s: seq<nat>, i: nat, j: nat, t: seq<nat>)
    requires j <= i < |s| == |t|
    requires forall k :: 0 <= k < j || i < k < |s| ==> t[k] == s[k]
    requires t[j] == s[i] && forall k :: j < k <= i ==> t[k] == s[k - 1]
    ensures t == Moved(s, i, j)
  {
    var front, middle, tail := s[..j] + [s[i]], s[j..i], s[i + 1..];
    assert t[..j + 1] == front;
    assert t[j + 1..i + 1] == middle;
    assert t[i + 1..] == tail;
    assert t == t[..j + 1] + t[j + 1..i + 1] + t[i + 1..];
  }

  /** Moving an entry forward permutes any front that contains it, and nothing else. */
  lemma MovedKeeps(s: seq<nat>, i: nat, j: nat, n: nat)
    requires j <= i < n <= |s|
    ensures multiset(Moved(s, i, j)[..n]) == multiset(s[..n]) && Moved(s, i, j)[n..] == s[n..]
  {
    var head, x, middle, tail := s[..j], [s[i]], s[j..i], s[i + 1..n];
    assert s[..n] == head + middle + x + tail;
    assert Moved(s, i, j)[..n] == head + x + middle + tail;
  }

  lemma MovedOrdered(s: seq<nat>, i: nat, j: nat)
    requires j <= i < |s| && Ordered(s[..i])
    requires j == 0 || s[j - 1] <= s[i]
    requires forall k :: j <= k < i ==> s[i] < s[k]
    ensures Ordered(Moved(s, i, j)[..i + 1])
  {
    var t := Moved(s, i, j);
    assert forall k :: 0 <= k < i ==> s[..i][k] == s[k];
    forall x, y | 0 <= x < y < i + 1 ensures t[x] <= t[y] {
      if y < j {
        assert s[..i][x] <= s[..i][y];
      } else if x < j {
        assert s[..i][x] <= s[..i][j - 1];
      } else if x > j {
        assert s[..i][x - 1] <= s[..i][y - 1];
      }
    }
  }

  lemma SameElements(s: seq<nat>, t: seq<nat>)
    requires multiset(s) == multiset(t)
    ensures Elements(s) == Elements(t)
  {
    assert forall x :: x in s <==> x in multiset(s);
    assert forall x :: x in t <==> x in multiset(t);
  }

  /** Moves entry `i` to its place among the ordered entries in front of it. */
  method InsertEntry(a: array<nat>, i: nat) returns (ghost j: nat)
    requires i < a.Length && Ordered(a[..i])
    modifies a
    ensures j <= i && a[..] == Moved(old(a[..]), i, j) && Ordered(a[..i + 1])
  {
    ghost var before := a[..];
    var tmp := a[i];
    var k := i;
    while k >= 1 && tmp < a[k - 1]
      invariant 0 <= k <= i
      invariant forall x :: 0 <= x <= k ==> a[x] == before[x]
      invariant forall x :: k < x <= i ==> a[x] == before[x - 1]
      invariant forall x :: i < x < a.Length ==> a[x] == before[x]
      invariant forall x :: k <= x < i ==> tmp < before[x]
    {
      a[k] := a[k - 1];
      k := k - 1;
    }
    a[k] := tmp;
    j := k;
    MovedAt(before, i, j, a[..]);
    MovedOrdered(before, i, j);
  }

  method InsertionSort(a: array<nat>, al: nat)
    requires al <= a.Length
    modifies a
    ensures Ordered(a[..al]) && multiset(a[..al]) == multiset(old(a[..al]))
    ensures a[al..] == old(a[al..])
  {
    if al == 0 {
      return;
    }
    var i := 1;
    while i < al
      invariant 1 <= i <= al
      invariant Ordered(a[..i])
      invariant multiset(a[..al]) == multiset(old(a[..al]))
      invariant a[al..] == old(a[al..])
    {
      hide Ordered, Moved;
      ghost var before := a[..];
      ghost var j := InsertEntry(a, i);
      MovedKeeps(before, i, j, al);
      assert a[..al] == a[..][..al] && a[al..] == a[..][al..];
      i := i + 1;
    }
  }

  /** `front` holds one copy of each of the first `i` entries of `sorted`, in increasing order. */
  ghost predicate Distinct(front: seq<nat>, sorted: seq<nat>, i: nat) {
    && 1 <= |front| <= i <= |sorted|
    && Increasing(front) && Elements(front) == Elements(sorted[..i])
    && front[|front| - 1] == sorted[i - 1]
  }

  lemma DistinctStep(front: seq<nat>, sorted: seq<nat>, i: nat)
    requires Ordered(sorted) && i < |sorted| && Distinct(front, sorted, i)
    ensures Distinct(if sorted[i] != sorted[i - 1] then front + [sorted[i]] else front, sorted, i + 1)
  {
    ElementsAppend(sorted[..i], sorted[i]);
    ElementsAppend(front, sorted[i]);
    assert sorted[..i + 1] == sorted[..i] + [sorted[i]];
    assert sorted[i - 1] <= sorted[i];
    assert front[|front| - 1] in Elements(front);
  }

  lemma LastOfFront(front: seq<nat>, sorted: seq<nat>, i: nat)
    requires Distinct(front, sorted, i)
    ensures front[|front| - 1] == sorted[i - 1]
  {}

  lemma PutBehind(s: seq<nat>, n: nat, x: nat, al: nat)
    requires n < al <= |s|
    ensures s[n := x][..n + 1] == s[..n] + [x] && s[n := x][al..] == s[al..]
  {}

  /** Sorts the first `al` entries and moves one copy of each to the front. */
  method SortArray(a: array<nat>, al: nat) returns (bl: nat)
    requires 1 <= al <= a.Length
    modifies a
    ensures 1 <= bl <= al
    ensures Increasing(a[..bl]) && Elements(a[..bl]) == Elements(old(a[..al]))
    ensures a[al..] == old(a[al..])
  {
    InsertionSort(a, al);
    SameElements(a[..al], old(a[..al]));
    bl := KeepDistinct(a, al);
  }

  /** Moves one copy of each of the first `al` ordered entries to the front. */
  method KeepDistinct(a: array<nat>, al: nat) returns (bl: nat)
    requires 1 <= al <= a.Length && Ordered(a[..al])
    modifies a
    ensures 1 <= bl <= al
    ensures Increasing(a[..bl]) && Elements(a[..bl]) == Elements(old(a[..al]))
    ensures a[al..] == old(a[al..])
  {
    hide Increasing, Elements, Ordered, Distinct;
    ghost var sorted := a[..al];
    bl := 1;
    var i := 1;
    DistinctFirst(sorted);
    assert a[..1] == sorted[..1];
    while i < al
      invariant 1 <= bl <= i <= al
      invariant Distinct(a[..bl], sorted, i)
      invariant forall k :: i - 1 <= k < al && bl - 1 < k ==> a[k] == sorted[k]
      invariant a[al..] == old(a[al..])
    {
      ghost var front := a[..bl];
      DistinctStep(front, sorted, i);
      LastOfFront(front, sorted, i);
      if a[i] != a[i - 1] {
        PutBehind(a[..], bl, a[i], al);
        a[bl] := a[i];
        bl := bl + 1;
      }
      i := i + 1;
    }
    DistinctAll(a[..bl], sorted);
  }

  lemma DistinctFirst(sorted: seq<nat>)
    requires sorted != []
    ensures Distinct(sorted[..1], sorted, 1)
  {}

  lemma DistinctAll(front: seq<nat>, sorted: seq<nat>)
    requires Distinct(front, sorted, |sorted|)
    ensures Increasing(front) && Elements(front) == Elements(sorted)
  {
    assert sorted[..|sorted|] == sorted;
  }

  // ---- The planner's computation ----

  method GetMask(mask: set<Pin>, values: array<nat>, value: nat) returns (m: set<Pin>)
    requires values.Length == PINS
    ensures m == PinsAt(mask, values[..], value)
  {
    m := {};
    var i := 0;
    while i < PINS
      invariant i <= PINS
      invariant m == set p | p in mask && values[p] == value && p < i
    {
      if i in mask && values[i] == value {
        m := m + {i};
      }
      i := i + 1;
    }
  }

  ghost function ActiveBelow(mask: set<Pin>, values: seq<nat>, n: nat): set<Pin>
    requires |values| == PINS
  {
    set p | p in mask && values[p] != 0 && p < n
  }

  /** The temporary step array has 17 entries and one is needed for the range. */
  ghost predicate FitsTable(mask: set<Pin>, values: seq<nat>)
    requires |values| == PINS
  {
    |ActiveBelow(mask, values, PINS)| < PINS
  }

  lemma ActiveNext(mask: set<Pin>, values: seq<nat>, i: Pin)
    requires |values| == PINS
    ensures ActiveBelow(mask, values, i + 1)
         == ActiveBelow(mask, values, i) + (if i in mask && values[i] != 0 then {i} else {})
    ensures |ActiveBelow(mask, values, i)| <= |ActiveBelow(mask, values, PINS)|
    ensures |ActiveBelow(mask, values, i + 1)| <= |ActiveBelow(mask, values, PINS)|
  {
    SubsetSize(ActiveBelow(mask, values, i), ActiveBelow(mask, values, PINS));
    SubsetSize(ActiveBelow(mask, values, i + 1), ActiveBelow(mask, values, PINS));
  }

  lemma {:induction false} SubsetSize(a: set<Pin>, b: set<Pin>)
    requires a <= b
    ensures |a| <= |b|
  {
    if a != {} {
      var x :| x in a;
      SubsetSize(a - {x}, b - {x});
    }
  }

  ghost function ValuesOf(pins: set<Pin>, values: seq<nat>): set<nat>
    requires |values| == PINS
  {
    set p | p in pins :: values[p]
  }

  /** Collects the nonzero values of the active pins into the front of `temp`. */
  method Gather(mask: set<Pin>, values: array<nat>, temp: array<nat>) returns (n: nat)
    requires values.Length == PINS && temp.Length == PINS && values != temp && FitsTable(mask, values[..])
    modifies temp
    ensures n < PINS
    ensures Elements(temp[..n]) == ValuesOf(ActiveBelow(mask, values[..], PINS), values[..])
  {
    n := 0;
    var i := 0;
    ghost var vs := values[..];
    while i < PINS
      invariant i <= PINS && n == |ActiveBelow(mask, vs, i)| < PINS
      invariant values[..] == vs
      invariant Elements(temp[..n]) == ValuesOf(ActiveBelow(mask, vs, i), vs)
    {
      ActiveNext(mask, vs, i);
      if i in mask && values[i] != 0 {
        ghost var front := temp[..n];
        ElementsAppend(front, vs[i]);
        temp[n] := values[i];
        n := n + 1;
        assert temp[..n] == front + [vs[i]];
        ValuesOfAdd(ActiveBelow(mask, vs, i), i, vs);
      }
      i := i + 1;
    }
  }

  lemma ValuesOfAdd(pins: set<Pin>, p: Pin, values: seq<nat>)
    requires |values| == PINS
    ensures ValuesOf(pins + {p}, values) == ValuesOf(pins, values) + {values[p]}
  {}

  /** Replaces increasing levels by their differences, from the top down. */
  method Difference(a: array<nat>, n: nat)
    requires n < a.Length && Increasing(a[..n + 1])
    modifies a
    ensures a[..n + 1] == Differences(old(a[..n + 1]))
  {
    ghost var levels := a[..n + 1];
    var i: nat := n;
    while i > 0
      invariant i <= n
      invariant a[..i + 1] == levels[..i + 1]
      invariant forall k :: i < k <= n ==> a[k] + levels[k - 1] == levels[k]
    {
      assert levels[i - 1] < levels[i];
      assert a[i] == a[..i + 1][i] && a[i - 1] == a[..i + 1][i - 1];
      a[i] := a[i] - a[i - 1];
      assert a[..i] == levels[..i + 1][..i];
      i := i - 1;
    }
    assert a[0] == a[..1][0];
  }

  method FillMasks(mask: set<Pin>, values: array<nat>, levels: array<nat>, len: nat) returns (masks: array<set<Pin>>)
    requires values.Length == PINS && levels.Length == PINS && len < PINS
    ensures fresh(masks) && masks.Length == PINS
    ensures forall k :: 0 <= k < len ==> masks[k] == PinsAt(mask, values[..], levels[k])
  {
    masks := new set<Pin>[PINS](_ => {});
    var i := 0;
    while i < len
      invariant i <= len
      invariant forall k :: 0 <= k < i ==> masks[k] == PinsAt(mask, values[..], levels[k])
    {
      masks[i] := GetMask(mask, values, levels[i]);
      i := i + 1;
    }
  }

  method PrepareSteps(mask: set<Pin>, values: array<nat>, range: nat)
    returns (len: nat, steps: array<nat>, masks: array<set<Pin>>)
    requires values.Length == PINS && FitsTable(mask, values[..])
    ensures fresh(steps) && fresh(masks) && steps.Length == PINS && masks.Length == PINS && len < PINS
    ensures IsPlanFor(Plan(steps[..len + 1], masks[..len]), mask, values[..], range)
  {
    hide Elements, Wanted, Increasing, PinsAt, FitsTable;
    steps := new nat[PINS];
    ghost var vs := values[..];
    var n := Gather(mask, values, steps);
    ElementsAppend(steps[..n], range);
    steps[n] := range;
    assert steps[..n + 1] == steps[..n] + [range];
    WantedIs(mask, vs, range);
    var bl := SortArray(steps, n + 1);
    len := bl - 1;
    ghost var levels := steps[..bl];
    masks := FillMasks(mask, values, steps, len);
    assert forall k :: 0 <= k < len ==> masks[k] == PinsAt(mask, vs, levels[k]);
    Difference(steps, len);
    assert masks[..len] == PlanOf(levels, mask, vs).masks;
  }

  lemma WantedIs(mask: set<Pin>, values: seq<nat>, range: nat)
    requires |values| == PINS
    ensures Wanted(mask, values, range) == ValuesOf(ActiveBelow(mask, values, PINS), values) + {range}
  {}

  // ---- What a plan delivers ----

  ghost function Sum(s: seq<nat>): nat {
    if s == [] then 0 else Sum(s[..|s| - 1]) + s[|s| - 1]
  }

  /** Time from the start of step `k` until `p`, high at that moment, is switched off or the cycle ends. */
  ghost function OnTime(plan: Plan, p: Pin, k: nat): nat
    requires WellFormed(plan) && k <= |plan.masks|
    decreases |plan.masks| - k
  {
    plan.steps[k] + if k == |plan.masks| || p in plan.masks[k] then 0 else OnTime(plan, p, k + 1)
  }

  lemma {:induction false} Telescope(levels: seq<nat>, k: nat)
    requires Increasing(levels) && k < |levels|
    ensures Sum(Differences(levels)[..k + 1]) == levels[k]
  {
    var d := Differences(levels);
    assert d[..k + 1][..k] == d[..k] && d[..k + 1][k] == d[k];
    if k == 0 {
      assert d[..0] == [];
    } else {
      Telescope(levels, k - 1);
    }
  }

  /** The cycle lasts as long as the largest level. */
  ghost function Period(mask: set<Pin>, values: seq<nat>, range: nat): (t: nat)
    requires |values| == PINS
  {
    MaxOf(Wanted(mask, values, range))
  }

  ghost predicate IsMax(m: nat, s: set<nat>) {
    m in s && forall x :: x in s ==> x <= m
  }

  lemma {:induction false} MaxExists(s: set<nat>)
    requires s != {}
    ensures exists m :: IsMax(m, s)
  {
    var x :| x in s;
    if s == {x} {
      assert IsMax(x, s);
    } else {
      MaxExists(s - {x});
      var m :| IsMax(m, s - {x});
      var top := if x > m then x else m;
      forall y | y in s ensures y <= top {
        assert y == x || y in s - {x};
      }
      assert IsMax(top, s);
    }
  }

  ghost function MaxOf(s: set<nat>): nat
    requires s != {}
  {
    MaxExists(s);
    var m :| IsMax(m, s);
    m
  }

  lemma {:induction false} OnTimeFrom(levels: seq<nat>, mask: set<Pin>, values: seq<nat>, p: Pin, k: nat, top: nat)
    requires Increasing(levels) && 0 < |levels| <= PINS && |values| == PINS && k < |levels| && p in mask
    requires k <= top < |levels|
    requires forall i :: k <= i < |levels| - 1 ==> (levels[i] == values[p] <==> i == top)
    ensures OnTime(PlanOf(levels, mask, values), p, k) == levels[top] - (if k == 0 then 0 else levels[k - 1])
    decreases |levels| - k
  {
    var plan := PlanOf(levels, mask, values);
    if k < |plan.masks| && k != top {
      OnTimeFrom(levels, mask, values, p, k + 1, top);
    }
  }

  /** Duty cycle. Over one cycle of the plan, which lasts the largest of the range and the active values,
      an active pin is high for exactly its value; except that a pin whose value is 0 is never switched
      off (unless the range is 0 too) and so stays high for the whole cycle. */
  lemma ExactDuty(plan: Plan, mask: set<Pin>, values: seq<nat>, range: nat, p: Pin)
    requires |values| == PINS && FitsTable(mask, values) && IsPlanFor(plan, mask, values, range) && p in mask
    ensures WellFormed(plan) && Sum(plan.steps) == Period(mask, values, range)
    ensures OnTime(plan, p, 0) == if values[p] == 0 && range != 0 then Period(mask, values, range) else values[p]
    ensures OnTime(plan, p, 0) == values[p] <==> values[p] != 0 || range == 0
  {
    var levels :| Increasing(levels) && |levels| > 0
      && Elements(levels) == Wanted(mask, values, range) && plan == PlanOf(levels, mask, values);
    hide FitsTable, Period, Wanted;
    LevelCount(levels, mask, values, range);
    PeriodIsTop(levels, mask, values, range);
    DutyOfLevels(levels, mask, values, range, p);
  }

  lemma PeriodIsTop(levels: seq<nat>, mask: set<Pin>, values: seq<nat>, range: nat)
    requires |values| == PINS && |levels| > 0
    requires Increasing(levels) && Elements(levels) == Wanted(mask, values, range)
    ensures Period(mask, values, range) == levels[|levels| - 1] == Sum(PlanOf(levels, mask, values).steps)
  {
    hide Wanted;
    var last := |levels| - 1;
    Telescope(levels, last);
    assert Differences(levels)[..last + 1] == PlanOf(levels, mask, values).steps;
    assert levels[last] in Elements(levels);
    MaxExists(Elements(levels));
    var t := MaxOf(Elements(levels));
    assert IsMax(t, Elements(levels));
    assert t in levels;
  }

  lemma DutyOfLevels(levels: seq<nat>, mask: set<Pin>, values: seq<nat>, range: nat, p: Pin)
    requires |values| == PINS && 0 < |levels| <= PINS && p in mask
    requires Increasing(levels) && Elements(levels) == Wanted(mask, values, range)
    ensures var on := OnTime(PlanOf(levels, mask, values), p, 0);
            && (values[p] != 0 || range == 0 ==> on == values[p])
            && (values[p] == 0 && range != 0 ==> on == levels[|levels| - 1] > 0)
  {
    var last := |levels| - 1;
    if values[p] != 0 || range == 0 {
      assert values[p] in Elements(levels);
      var top :| 0 <= top < |levels| && levels[top] == values[p];
      OnTimeFrom(levels, mask, values, p, 0, top);
    } else {
      forall i | 0 <= i < |levels| ensures levels[i] != 0 {
        assert levels[i] in Elements(levels);
      }
      OnTimeFrom(levels, mask, values, p, 0, last);
    }
  }

  lemma {:induction false} ElementsCount(s: seq<nat>)
    requires Increasing(s)
    ensures |Elements(s)| == |s|
  {
    if s != [] {
      var front, x := s[..|s| - 1], s[|s| - 1];
      forall i | 0 <= i < |front| ensures front[i] < x {}
      assert Increasing(front) && s == front + [x];
      hide Increasing;
      ElementsCount(front);
      ElementsAppend(front, x);
      assert x !in Elements(front);
    }
  }

  lemma {:induction false} ValuesOfCount(pins: set<Pin>, values: seq<nat>)
    requires |values| == PINS
    ensures |ValuesOf(pins, values)| <= |pins|
  {
    if pins != {} {
      var p :| p in pins;
      ValuesOfCount(pins - {p}, values);
      ValuesOfAdd(pins - {p}, p, values);
      assert pins == (pins - {p}) + {p};
    }
  }

  lemma LevelCount(levels: seq<nat>, mask: set<Pin>, values: seq<nat>, range: nat)
    requires |values| == PINS && FitsTable(mask, values)
    requires Increasing(levels) && Elements(levels) == Wanted(mask, values, range)
    ensures |levels| <= PINS
  {
    ElementsCount(levels);
    WantedIs(mask, values, range);
    ValuesOfCount(ActiveBelow(mask, values, PINS), values);
  }
}
