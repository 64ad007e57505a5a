/** Software PWM: the double-buffered step table shared by the planner and the timer interrupt.
    The planner's stores are separate steps, so the interrupt may come between any two of them. */
module PwmTimer {
  import opened Option
  import opened PwmPlanner

  datatype Table = Table(len: nat, steps: seq<nat>, masks: seq<set<Pin>>)

  /** How far the planner has got: it has cleared the flag, or made `stores` stores into table `target`. */
  datatype Stage = Idle | Cleared(plan: Plan) | Storing(plan: Plan, target: nat, stores: nat)

  /** The globals of the PWM driver. `high` are the pins driven high, `reload` the timer value set last. */
  datatype Machine = Machine(
    tables: seq<Table>, active: nat, current: nat, changed: bool,
    mask: set<Pin>, high: set<Pin>, reload: nat, stage: Stage)

  datatype Action =
    | StartPlan(plan: Plan)
    | PlannerStore
    | Interrupt
    | SetMask(pins: set<Pin>)
    | Restart

  ghost predicate Shaped(m: Machine) {
    && |m.tables| == 2 && m.active < 2
    && forall k :: 0 <= k < 2 ==>
         m.tables[k].len < PINS && |m.tables[k].steps| == PINS && |m.tables[k].masks| == PINS
  }

  // ---- The interrupt routine ----

  function TimerIsr(m: Machine): Machine
    requires Shaped(m)
  {
    var table := m.tables[m.active];
    if m.current < table.len then
      m.(high := m.high - table.masks[m.current] * m.mask,
         current := m.current + 1, reload := table.steps[m.current + 1])
    else if m.mask == {} then
      m.(tables := m.tables[m.active := table.(len := 0)], current := 0)
    else
      var active := if m.changed then 1 - m.active else m.active;
      m.(high := m.high + m.mask, active := active, changed := false,
         current := 0, reload := m.tables[active].steps[0])
  }

  // ---- The planner, store by store ----

  function StoreCount(plan: Plan): nat {
    1 + |plan.steps| + |plan.masks|
  }

  ghost function OneStore(table: Table, plan: Plan, n: nat): Table
    requires WellFormed(plan) && |table.steps| == PINS && |table.masks| == PINS && n < StoreCount(plan)
  {
    if n == 0 then table.(len := |plan.masks|)
    else if n <= |plan.steps| then table.(steps := table.steps[n - 1 := plan.steps[n - 1]])
    else var k := n - 1 - |plan.steps|; table.(masks := table.masks[k := plan.masks[k]])
  }

  ghost function PlannerStep(m: Machine): Machine
    requires Shaped(m) && StageOk(m)
  {
    match m.stage
    case Idle => m
    case Cleared(plan) => m.(stage := Storing(plan, 1 - m.active, 0))
    case Storing(plan, target, n) =>
      if n < StoreCount(plan) then
        m.(tables := m.tables[target := OneStore(m.tables[target], plan, n)], stage := Storing(plan, target, n + 1))
      else m.(changed := true, stage := Idle)
  }

  /** Any action may come at any time; one that does not apply changes nothing. `Restart` is the
      clearing of the first bytes of table 0 when the first pin is switched on again. */
  ghost function Step(m: Machine, a: Action): Machine
    requires Shaped(m) && StageOk(m)
  {
    match a
    case StartPlan(plan) =>
      if m.stage.Idle? && WellFormed(plan) then m.(changed := false, stage := Cleared(plan)) else m
    case PlannerStore => PlannerStep(m)
    case Interrupt => TimerIsr(m)
    case SetMask(pins) => m.(mask := pins)
    case Restart =>
      if m.stage.Idle? && m.mask == {} then
        m.(tables := m.tables[0 := m.tables[0].(len := 0, steps := m.tables[0].steps[0 := 0])])
      else m
  }

  /** The stores made so far are in place. */
  ghost predicate StoredUpTo(table: Table, plan: Plan, n: nat)
    requires |table.steps| == PINS && |table.masks| == PINS
  {
    && WellFormed(plan) && n <= StoreCount(plan)
    && (n > 0 ==> table.len == |plan.masks|)
    && (forall k :: 0 <= k < |plan.steps| && k + 1 < n ==> table.steps[k] == plan.steps[k])
    && (forall k :: 0 <= k < |plan.masks| && k + 1 + |plan.steps| < n ==> table.masks[k] == plan.masks[k])
  }

  ghost predicate StageOk(m: Machine)
    requires Shaped(m)
  {
    match m.stage
    case Idle => true
    case Cleared(plan) => !m.changed && WellFormed(plan)
    case Storing(plan, target, n) =>
      !m.changed && target == 1 - m.active && StoredUpTo(m.tables[target], plan, n)
  }

  // ---- What the interrupt sees ----

  function PlanIn(table: Table): Plan
    requires table.len < PINS && |table.steps| == PINS && |table.masks| == PINS
  {
    Plan(table.steps[..table.len + 1], table.masks[..table.len])
  }

  /** The driver as an atomic machine: a plan in use, at most one complete plan waiting. */
  datatype View = View(plan: Plan, next: Option<Plan>, current: nat, mask: set<Pin>, high: set<Pin>, reload: nat)

  ghost function Abstract(m: Machine): View
    requires Shaped(m)
  {
    View(PlanIn(m.tables[m.active]),
         if m.changed then Some(PlanIn(m.tables[1 - m.active])) else None,
         m.current, m.mask, m.high, m.reload)
  }

  ghost function AbstractIsr(v: View): View
    requires WellFormed(v.plan) && (v.next.Some? ==> WellFormed(v.next.value))
  {
    if v.current < |v.plan.masks| then
      v.(high := v.high - v.plan.masks[v.current] * v.mask,
         current := v.current + 1, reload := v.plan.steps[v.current + 1])
    else if v.mask == {} then
      v.(plan := Plan(v.plan.steps[..1], []), current := 0)
    else
      var plan := if v.next.Some? then v.next.value else v.plan;
      View(plan, None, 0, v.mask, v.high + v.mask, plan.steps[0])
  }

  /** The interrupt never sees a table the planner is writing: it acts on whole plans, and takes up a new
      plan only at the end of a cycle. The planner's stores are invisible until the last one, which makes
      exactly the plan it was given available. */
  lemma Refines(m: Machine, a: Action)
    requires Shaped(m) && StageOk(m)
    ensures var n := Step(m, a);
            && Shaped(n) && StageOk(n)
            && WellFormed(Abstract(m).plan) && (Abstract(m).next.Some? ==> WellFormed(Abstract(m).next.value))
            && match a {
                 case Interrupt => Abstract(n) == AbstractIsr(Abstract(m))
                 case PlannerStore =>
                   if m.stage.Storing? && n.stage.Idle?
                   then Abstract(m).next == None && Abstract(n) == Abstract(m).(next := Some(m.stage.plan))
                   else Abstract(n) == Abstract(m)
                 case StartPlan(plan) =>
                   Abstract(n) == if n.stage == m.stage then Abstract(m) else Abstract(m).(next := None)
                 case SetMask(pins) => Abstract(n) == Abstract(m).(mask := pins)
                 case Restart =>
                   n == m || (m.mask == {} && Abstract(n) == Abstract(m).(
                     plan := if m.active == 0 then Plan([0], []) else Abstract(m).plan,
                     next := if m.active == 1 && m.changed then Some(Plan([0], [])) else Abstract(m).next))
               }
  {
    match a {
      case Interrupt => IsrRefines(m);
      case PlannerStore => StoreRefines(m);
      case StartPlan(plan) =>
      case SetMask(pins) =>
      case Restart =>
        var t := m.tables[0].(len := 0, steps := m.tables[0].steps[0 := 0]);
        assert PlanIn(t) == Plan([0], []);
    }
  }

  /** A waiting plan is taken up at the first end of a cycle at which pins are active; these are switched on. */
  lemma TakesUp(m: Machine)
    requires Shaped(m) && StageOk(m) && EndsCycle(m) && m.mask != {}
    ensures var v, w := Abstract(m), Abstract(TimerIsr(m));
            && w.plan == (if v.next.Some? then v.next.value else v.plan)
            && w.next == None && w.current == 0 && w.high == v.high + v.mask && w.reload == w.plan.steps[0]
  {
    IsrRefines(m);
  }

  function Interrupts(m: Machine, k: nat): (n: Machine)
    requires Shaped(m)
    ensures Shaped(n)
    decreases k
  {
    if k == 0 then m else Interrupts(TimerIsr(m), k - 1)
  }

  /** So a published plan runs after at most seventeen interrupts, if no new one is started meanwhile. */
  lemma {:induction false} SoonRunning(m: Machine)
    requires Shaped(m) && StageOk(m) && m.mask != {} && m.current <= m.tables[m.active].len
    requires Abstract(m).next.Some?
    ensures var k := m.tables[m.active].len - m.current + 1;
            && k <= 17 && Abstract(Interrupts(m, k)).plan == Abstract(m).next.value
            && Abstract(Interrupts(m, k)).current == 0
    decreases m.tables[m.active].len - m.current
  {
    IsrRefines(m);
    hide Abstract, AbstractIsr, StageOk;
    if m.current < m.tables[m.active].len {
      NextStays(m);
      SoonRunning(TimerIsr(m));
    } else {
      TakesUp(m);
      assert Interrupts(m, 1) == Interrupts(TimerIsr(m), 0) == TimerIsr(m);
    }
  }

  lemma NextStays(m: Machine)
    requires Shaped(m) && StageOk(m) && m.current < m.tables[m.active].len
    ensures Abstract(TimerIsr(m)).next == Abstract(m).next
  {}

  lemma IsrRefines(m: Machine)
    requires Shaped(m) && StageOk(m)
    ensures Shaped(TimerIsr(m)) && StageOk(TimerIsr(m))
    ensures Abstract(TimerIsr(m)) == AbstractIsr(Abstract(m))
  {
    var table := m.tables[m.active];
    assert PlanIn(table).steps[..1] == table.steps[..1];
    assert PlanIn(table.(len := 0)) == Plan(table.steps[..1], []);
  }

  lemma StoreRefines(m: Machine)
    requires Shaped(m) && StageOk(m)
    ensures var n := PlannerStep(m);
            && Shaped(n) && StageOk(n)
            && if m.stage.Storing? && n.stage.Idle?
               then Abstract(m).next == None && Abstract(n) == Abstract(m).(next := Some(m.stage.plan))
               else Abstract(n) == Abstract(m)
  {
    if m.stage.Storing? && m.stage.stores == StoreCount(m.stage.plan) {
      assert PlanIn(m.tables[m.stage.target]) == m.stage.plan;
    }
  }

  // ---- Every cycle of every run ----

  /** A finished cycle: its plan, the pins switched on at its start, whether that set stayed the same
      throughout, how long the cycle took and how long each pin was high in it. */
  datatype Cycle = Cycle(plan: Plan, pins: set<Pin>, steady: bool, elapsed: nat, on: seq<nat>)

  /** A machine under observation, with the cycle in progress. */
  datatype Watch = Watch(m: Machine, pins: set<Pin>, steady: bool, elapsed: nat, on: seq<nat>, published: set<Plan>)

  ghost predicate Watched(w: Watch) {
    |w.on| == PINS && Shaped(w.m) && StageOk(w.m)
  }

  /** The time up to the interrupt goes to the pins that were high. */
  ghost function Passed(w: Watch): Watch
    requires Watched(w)
  {
    w.(elapsed := w.elapsed + w.m.reload,
       on := seq(PINS, p requires 0 <= p < PINS => w.on[p] + if p in w.m.high then w.m.reload else 0))
  }

  ghost predicate EndsCycle(m: Machine)
    requires Shaped(m)
  {
    m.current >= m.tables[m.active].len
  }

  ghost function Observe(w: Watch, a: Action): Watch
    requires Watched(w)
  {
    var n := Step(w.m, a);
    var v := w.(m := n);
    match a
    case Interrupt =>
      if EndsCycle(w.m) then
        v.(pins := w.m.mask, steady := w.m.mask != {}, elapsed := 0, on := seq(PINS, _ => 0))
      else Passed(w).(m := n)
    case SetMask(pins) => v.(steady := w.steady && pins == w.m.mask)
    case Restart => v.(steady := false)
    case PlannerStore =>
      if w.m.stage.Storing? && n.stage.Idle? then v.(published := w.published + {w.m.stage.plan}) else v
    case StartPlan(_) => v
  }

  /** The cycle that an action completes, if it does. */
  ghost function Completed(w: Watch, a: Action): seq<Cycle>
    requires Watched(w)
  {
    if a.Interrupt? && EndsCycle(w.m) then
      var p := Passed(w);
      [Cycle(Abstract(w.m).plan, w.pins, w.steady, p.elapsed, p.on)]
    else []
  }

  ghost function Cycles(w: Watch, actions: seq<Action>): seq<Cycle>
    requires Watched(w)
    decreases |actions|
  {
    if actions == [] then []
    else
      Refines(w.m, actions[0]);
      Completed(w, actions[0]) + Cycles(Observe(w, actions[0]), actions[1..])
  }

  /** The driver only ever runs plans that were completely published, or has nothing to switch off. */
  ghost predicate FromPublished(plan: Plan, published: set<Plan>) {
    plan in published || plan.masks == []
  }

  ghost predicate OnTrack(w: Watch)
    requires Watched(w)
  {
    var v := Abstract(w.m);
    && FromPublished(v.plan, w.published)
    && (v.next.Some? ==> FromPublished(v.next.value, w.published))
    && (w.steady ==>
         && w.pins == v.mask && WellFormed(v.plan) && v.current <= |v.plan.masks|
         && w.elapsed == Sum(v.plan.steps[..v.current]) && v.reload == v.plan.steps[v.current]
         && forall p: Pin :: p in w.pins ==>
              OnTime(v.plan, p, 0) == w.on[p] + if p in v.high then OnTime(v.plan, p, v.current) else 0)
  }

  /** What is true of every finished cycle during which the set of active pins did not change. */
  ghost predicate RanPlan(c: Cycle, published: set<Plan>) {
    && FromPublished(c.plan, published) && WellFormed(c.plan) && |c.on| == PINS
    && (c.steady ==>
         && c.elapsed == Sum(c.plan.steps)
         && forall p: Pin :: p in c.pins ==> c.on[p] == OnTime(c.plan, p, 0))
  }

  lemma ViewIs(m: Machine)
    requires Shaped(m)
    ensures var v := Abstract(m);
            && |v.plan.masks| == m.tables[m.active].len
            && v.current == m.current && v.mask == m.mask && v.high == m.high && v.reload == m.reload
  {}

  lemma TickOnTrack(w: Watch)
    requires Watched(w) && OnTrack(w)
    ensures var w' := Observe(w, Interrupt);
            && Watched(w') && OnTrack(w')
            && forall c :: c in Completed(w, Interrupt) ==> RanPlan(c, w.published)
  {
    if EndsCycle(w.m) {
      CycleRan(w);
      TickEndsCycle(w);
    } else {
      TickInCycle(w);
    }
  }

  lemma TickInCycle(w: Watch)
    requires Watched(w) && OnTrack(w) && !EndsCycle(w.m)
    ensures var w' := Observe(w, Interrupt); Watched(w') && OnTrack(w')
  {
    Refines(w.m, Interrupt);
    ViewIs(w.m);
    ViewIs(Step(w.m, Interrupt));
    hide Step, Abstract;
    var v := Abstract(w.m);
    if w.steady {
      SumNext(v.plan.steps, v.current);
    }
  }

  lemma SumNext(s: seq<nat>, k: nat)
    requires k < |s|
    ensures Sum(s[..k + 1]) == Sum(s[..k]) + s[k]
  {
    assert s[..k + 1][..k] == s[..k];
  }

  lemma TickEndsCycle(w: Watch)
    requires Watched(w) && OnTrack(w) && EndsCycle(w.m)
    ensures var w' := Observe(w, Interrupt); Watched(w') && OnTrack(w')
  {
    Refines(w.m, Interrupt);
    ViewIs(w.m);
    ViewIs(Step(w.m, Interrupt));
    hide Step, Abstract;
    assert AbstractIsr(Abstract(w.m)).plan.steps[..0] == [];
  }

  lemma CycleRan(w: Watch)
    requires Watched(w) && OnTrack(w) && EndsCycle(w.m)
    ensures forall c :: c in Completed(w, Interrupt) ==> RanPlan(c, w.published)
  {
    Refines(w.m, Interrupt);
    ViewIs(w.m);
    hide Step, Abstract;
    var v := Abstract(w.m);
    if w.steady {
      SumNext(v.plan.steps, v.current);
      assert v.plan.steps[..|v.plan.steps|] == v.plan.steps;
    }
  }

  lemma ActionOnTrack(w: Watch, a: Action)
    requires Watched(w) && OnTrack(w)
    ensures var w' := Observe(w, a);
            && Watched(w') && OnTrack(w') && w.published <= w'.published
            && forall c :: c in Completed(w, a) ==> RanPlan(c, w.published)
  {
    if a == Interrupt {
      TickOnTrack(w);
    } else {
      Refines(w.m, a);
      hide Step;
    }
  }

  ghost function PublishedIn(w: Watch, actions: seq<Action>): set<Plan>
    requires Watched(w)
    decreases |actions|
  {
    if actions == [] then w.published
    else
      Refines(w.m, actions[0]);
      PublishedIn(Observe(w, actions[0]), actions[1..])
  }

  /** In every run, whatever the interleaving of interrupts with the planner's stores, every finished
      cycle ran one plan that had been completely published: while the active pins stayed the same it
      took the sum of the plan's steps, and each pin was high for the time the plan gives it. */
  lemma {:induction false} EveryCycleRunsOnePlan(w: Watch, actions: seq<Action>)
    requires Watched(w) && OnTrack(w)
    ensures w.published <= PublishedIn(w, actions)
    ensures forall c :: c in Cycles(w, actions) ==> RanPlan(c, PublishedIn(w, actions))
    decreases |actions|
  {
    if actions != [] {
      hide Watched, OnTrack, Observe, Completed;
      ActionOnTrack(w, actions[0]);
      EveryCycleRunsOnePlan(Observe(w, actions[0]), actions[1..]);
      hide *;
    }
  }

  /** Power-on: empty tables, nothing active, nothing published. */
  lemma StartsOnTrack(m: Machine)
    requires Shaped(m) && m.stage == Idle && !m.changed && m.tables[m.active].len == 0
    ensures var w := Watch(m, {}, false, 0, seq(PINS, _ => 0), {}); Watched(w) && OnTrack(w)
  {}

  /** Put together: in every run, in every finished cycle with a steady set of pins, an active pin was high
      for exactly its duty value out of the period, unless that value is 0 (and the range is not). */
  lemma DutyInEveryRun(w: Watch, actions: seq<Action>, c: Cycle, mask: set<Pin>, values: seq<nat>, range: nat, p: Pin)
    requires Watched(w) && OnTrack(w) && c in Cycles(w, actions) && c.steady
    requires |values| == PINS && FitsTable(mask, values) && IsPlanFor(c.plan, mask, values, range)
    requires p in mask && p in c.pins
    ensures |c.on| == PINS && c.elapsed == Period(mask, values, range)
    ensures c.on[p] == if values[p] == 0 && range != 0 then c.elapsed else values[p]
  {
    hide Watched, OnTrack, Cycles, IsPlanFor, FitsTable, Period;
    EveryCycleRunsOnePlan(w, actions);
    assert RanPlan(c, PublishedIn(w, actions));
    ExactDuty(c.plan, mask, values, range, p);
  }

  // ---- From the values to the duty ----

  /** An action, with the duty values and the range at that moment. */
  datatype Input = Input(action: Action, values: seq<nat>, range: nat)

  /** A plan that the planner started to store, with what it was computed from. */
  datatype Job = Job(plan: Plan, mask: set<Pin>, values: seq<nat>, range: nat)

  ghost predicate Computed(job: Job) {
    && |job.values| == PINS && FitsTable(job.mask, job.values)
    && IsPlanFor(job.plan, job.mask, job.values, job.range)
  }

  function Actions(inputs: seq<Input>): (actions: seq<Action>)
    ensures |actions| == |inputs|
  {
    if inputs == [] then [] else [inputs[0].action] + Actions(inputs[1..])
  }

  /** The jobs of a run: every plan that was started, with the pins active at that moment. */
  ghost function Jobs(w: Watch, inputs: seq<Input>): seq<Job>
    requires Watched(w)
    decreases |inputs|
  {
    if inputs == [] then []
    else
      Refines(w.m, inputs[0].action);
      Started(w.m, inputs[0]) + Jobs(Observe(w, inputs[0].action), inputs[1..])
  }

  ghost function Started(m: Machine, input: Input): seq<Job> {
    if input.action.StartPlan? && m.stage.Idle? then [Job(input.action.plan, m.mask, input.values, input.range)] else []
  }

  /** The plan being stored, if any, and those published are among `known`. */
  ghost predicate Known(w: Watch, known: set<Plan>) {
    w.published <= known && (!w.m.stage.Idle? ==> w.m.stage.plan in known)
  }

  lemma {:induction false} PublishedWereStarted(w: Watch, inputs: seq<Input>, known: set<Plan>, plan: Plan)
    requires Watched(w) && Known(w, known) && plan in PublishedIn(w, Actions(inputs))
    ensures plan in known || exists job :: job in Jobs(w, inputs) && job.plan == plan
    decreases |inputs|
  {
    if inputs != [] {
      var input, rest := inputs[0], inputs[1..];
      assert Actions(inputs)[1..] == Actions(rest);
      Refines(w.m, input.action);
      var more := known + (set job | job in Started(w.m, input) :: job.plan);
      StaysKnown(w, input, known);
      hide Watched, Observe, Known, Started;
      PublishedWereStarted(Observe(w, input.action), rest, more, plan);
    }
  }

  lemma StaysKnown(w: Watch, input: Input, known: set<Plan>)
    requires Watched(w) && Known(w, known)
    ensures Known(Observe(w, input.action), known + (set job | job in Started(w.m, input) :: job.plan))
  {
    if input.action.StartPlan? && w.m.stage.Idle? {
      assert Started(w.m, input)[0].plan == input.action.plan;
    }
  }

  /** From power-on, in every run in which each plan is computed from the pins and values of its moment: a finished
      cycle with a steady set of pins either ran no plan yet, or gave every pin of its plan exactly the duty that
      the values asked for when that plan was started. */
  lemma DutyFromValues(w: Watch, inputs: seq<Input>, c: Cycle)
    requires Watched(w) && OnTrack(w) && w.published == {} && w.m.stage.Idle?
    requires forall job :: job in Jobs(w, inputs) ==> Computed(job)
    requires c in Cycles(w, Actions(inputs)) && c.steady
    ensures |c.on| == PINS
    ensures c.plan.masks == [] ||
            exists job :: job in Jobs(w, inputs) && job.plan == c.plan && |job.values| == PINS &&
              forall p: Pin :: p in job.mask && p in c.pins ==>
                c.elapsed == Period(job.mask, job.values, job.range) &&
                c.on[p] == if job.values[p] == 0 && job.range != 0 then c.elapsed else job.values[p]
  {
    hide Watched, OnTrack, Cycles, Jobs, IsPlanFor, FitsTable, Period;
    EveryCycleRunsOnePlan(w, Actions(inputs));
    assert RanPlan(c, PublishedIn(w, Actions(inputs)));
    if c.plan.masks != [] {
      PublishedWereStarted(w, inputs, {}, c.plan);
      var job :| job in Jobs(w, inputs) && job.plan == c.plan;
      forall p: Pin | p in job.mask && p in c.pins
        ensures c.elapsed == Period(job.mask, job.values, job.range)
        ensures c.on[p] == if job.values[p] == 0 && job.range != 0 then c.elapsed else job.values[p]
      {
        DutyInEveryRun(w, Actions(inputs), c, job.mask, job.values, job.range, p);
      }
    }
  }

  // ---- The driver itself ----

  class IsrTable {
    var len: nat
    const steps: array<nat>
    const masks: array<set<Pin>>

    constructor ()
      ensures len == 0 && fresh(steps) && fresh(masks) && steps.Length == PINS && masks.Length == PINS
      ensures steps[..] == seq(PINS, _ => 0)
    {
      len := 0;
      steps := new nat[PINS](_ => 0);
      masks := new set<Pin>[PINS](_ => {});
    }

    ghost function Contents(): Table
      reads this, steps, masks
    {
      Table(len, steps[..], masks[..])
    }

    method Load(newLen: nat, newSteps: array<nat>, newMasks: array<set<Pin>>)
      requires steps.Length == masks.Length == newSteps.Length == newMasks.Length == PINS && newLen < PINS
      requires steps != newSteps && masks != newMasks
      modifies this, steps, masks
      ensures len == newLen && PlanIn(Contents()) == Plan(newSteps[..newLen + 1], newMasks[..newLen])
    {
      len := newLen;
      var i := 0;
      while i <= len
        invariant i <= len + 1 && len == newLen
        invariant steps[..i] == newSteps[..i]
      {
        steps[i] := newSteps[i];
        i := i + 1;
      }
      i := 0;
      while i < len
        invariant i <= len && len == newLen && steps[..len + 1] == newSteps[..len + 1]
        invariant masks[..i] == newMasks[..i]
      {
        masks[i] := newMasks[i];
        i := i + 1;
      }
    }
  }

  /** Filling the table that is not in use, and flagging it, makes its plan available. */
  lemma PublishedView(m: Machine, n: Machine, plan: Plan)
    requires Shaped(m) && Shaped(n) && n.active == m.active && n.changed && PlanIn(n.tables[1 - n.active]) == plan
    requires n.tables[n.active] == m.tables[m.active]
    requires n.current == m.current && n.mask == m.mask && n.high == m.high && n.reload == m.reload
    ensures Abstract(n) == Abstract(m).(next := Some(plan))
  {}

  class PwmDriver {
    const table0: IsrTable
    const table1: IsrTable
    const values: array<nat>
    const halved: bool
    var active: nat
    var current: nat
    var changed: bool
    var mask: set<Pin>
    var range: nat
    var high: set<Pin>
    var reload: nat

    ghost predicate Valid()
      reads this, table0, table1
    {
      && active < 2 && values.Length == PINS && table0 != table1
      && table0.steps != table1.steps && table0.masks != table1.masks
      && values != table0.steps && values != table1.steps
      && table0.steps.Length == table0.masks.Length == table1.steps.Length == table1.masks.Length == PINS
      && table0.len < PINS && table1.len < PINS
    }

    ghost function State(): (m: Machine)
      requires Valid()
      reads this, table0, table1, table0.steps, table0.masks, table1.steps, table1.masks
      ensures Shaped(m) && StageOk(m)
    {
      Machine([table0.Contents(), table1.Contents()], active, current, changed, mask, high, reload, Idle)
    }

    constructor (halved: bool, range: nat)
      ensures Valid() && values[..] == seq(PINS, _ => 0) && mask == {} && this.range == range
      ensures State().tables[0].len == 0 && State().tables[1].len == 0 && !changed && active == 0
    {
      table0 := new IsrTable();
      table1 := new IsrTable();
      values := new nat[PINS](_ => 0);
      this.halved, this.range := halved, range;
      active, current, changed, mask, high, reload := 0, 0, false, {}, {}, 0;
    }

    /** The range, or half of it at the lower processor clock. */
    function EffectiveRange(): (r: nat)
      reads this
      ensures r < 0x1_0000
      ensures !halved && range < 0x1_0000 ==> r == range
      ensures halved && range < 0x2_0000 ==> 2 * r <= range <= 2 * r + 1
    {
      (if halved then range / 2 else range) % 0x1_0000
    }

    method Interrupt()
      requires Valid()
      modifies this, table0, table1
      ensures Valid() && State() == TimerIsr(old(State()))
      ensures range == old(range)
    {
      var table := if active == 0 then table0 else table1;
      if current < table.len {
        var off := table.masks[current] * mask;
        high := high - off;
        current := current + 1;
        reload := table.steps[current];
      } else {
        StartCycle();
      }
    }

    /** The branch of the interrupt at the end of a cycle. */
    method StartCycle()
      requires Valid() && current >= (if active == 0 then table0 else table1).len
      modifies this, table0, table1
      ensures Valid() && State() == TimerIsr(old(State()))
      ensures range == old(range)
    {
      current := 0;
      if mask == {} {
        var table := if active == 0 then table0 else table1;
        table.len := 0;
        return;
      }
      high := high + mask;
      if changed {
        active := 1 - active;
        changed := false;
      }
      reload := (if active == 0 then table0 else table1).steps[0];
    }

    /** Stores the plan into the table the interrupt is not using and flags it. */
    method Publish(len: nat, steps: array<nat>, masks: array<set<Pin>>)
      requires Valid() && steps.Length == masks.Length == PINS && len < PINS
      requires steps != table0.steps && steps != table1.steps && masks != table0.masks && masks != table1.masks
      requires values != steps
      modifies this`changed, table0, table1, table0.steps, table0.masks, table1.steps, table1.masks
      ensures Valid() && values[..] == old(values[..])
      ensures Abstract(State()) == Abstract(old(State())).(next := Some(Plan(steps[..len + 1], masks[..len])))
    {
      hide PlanIn, Abstract;
      ghost var plan := Plan(steps[..len + 1], masks[..len]);
      changed := false;
      var table := if active == 0 then table1 else table0;
      table.Load(len, steps, masks);
      changed := true;
      PublishedView(old(State()), State(), plan);
    }

    /** Recomputes the table the interrupt is not using and flags it. */
    method PrepPwmSteps()
      requires Valid() && FitsTable(mask, values[..])
      modifies this`changed, table0, table1, table0.steps, table0.masks, table1.steps, table1.masks
      ensures Valid() && values[..] == old(values[..])
      ensures old(mask) == {} ==> State() == old(State())
      ensures old(mask) != {} ==>
                exists plan :: IsPlanFor(plan, mask, values[..], EffectiveRange())
                  && Abstract(State()) == Abstract(old(State())).(next := Some(plan))
    {
      if mask == {} {
        return;
      }
      hide IsPlanFor, FitsTable, PlanIn, Abstract;
      var len, steps, masks := PrepareSteps(mask, values, EffectiveRange());
      Publish(len, steps, masks);
    }
  }
}
