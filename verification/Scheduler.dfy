/** Scheduled functions: a pending queue and a free list threaded through the same nodes. */
module Scheduler {
  import opened Option

  const MAX_COUNT: nat := 32

  /** A callback, by what it does to the scheduler in the run at hand: schedule further functions,
      or run everything pending. */
  datatype Fn = Fn(id: nat, acts: seq<Act>)
  datatype Act = Schedule(fn: Fn) | RunAll

  ghost function FnSize(fn: Fn): nat {
    1 + ActsSize(fn.acts)
  }

  ghost function ActSize(act: Act): nat {
    match act
    case Schedule(fn) => 1 + FnSize(fn)
    case RunAll => 1
  }

  ghost function ActsSize(acts: seq<Act>): nat {
    if acts == [] then 0 else ActSize(acts[0]) + ActsSize(acts[1..])
  }

  ghost function Work(funcs: seq<Option<Fn>>): nat {
    if funcs == [] then 0
    else (if funcs[0].Some? then FnSize(funcs[0].value) else 0) + Work(funcs[1..])
  }

  lemma {:induction false} WorkAppend(funcs: seq<Option<Fn>>, fn: Option<Fn>)
    ensures Work(funcs + [fn]) == Work(funcs) + if fn.Some? then FnSize(fn.value) else 0
  {
    if funcs == [] {
      assert funcs + [fn] == [fn] && [fn][1..] == [];
    } else {
      assert (funcs + [fn])[1..] == funcs[1..] + [fn];
      WorkAppend(funcs[1..], fn);
    }
  }

  // ---- What happened ----

  /** An offer to schedule a function, with the answer; the call of a function; the return of its node. */
  datatype Event = Offer(fn: Fn, ok: bool) | Start(fn: Fn) | Finish(fn: Fn)

  ghost function Accepts(log: seq<Event>): seq<Option<Fn>> {
    if log == [] then []
    else
      var e := log[|log| - 1];
      Accepts(log[..|log| - 1]) + if e.Offer? && e.ok then [Some(e.fn)] else []
  }

  ghost function Starts(log: seq<Event>): seq<Option<Fn>> {
    if log == [] then []
    else
      var e := log[|log| - 1];
      Starts(log[..|log| - 1]) + if e.Start? then [Some(e.fn)] else []
  }

  ghost function Finishes(log: seq<Event>): nat {
    if log == [] then 0 else Finishes(log[..|log| - 1]) + if log[|log| - 1].Finish? then 1 else 0
  }

  /** How many functions are pending or in flight. */
  ghost function Busy(log: seq<Event>): int {
    |Accepts(log)| - Finishes(log)
  }

  lemma Logged(log: seq<Event>, e: Event)
    ensures Accepts(log + [e]) == Accepts(log) + if e.Offer? && e.ok then [Some(e.fn)] else []
    ensures Starts(log + [e]) == Starts(log) + if e.Start? then [Some(e.fn)] else []
    ensures Finishes(log + [e]) == Finishes(log) + if e.Finish? then 1 else 0
  {
    assert (log + [e])[..|log|] == log;
  }

  /** The function accepted first of those not started. */
  ghost predicate Oldest(past: seq<Event>, fn: Fn) {
    |Starts(past)| < |Accepts(past)| && Accepts(past)[|Starts(past)|] == Some(fn)
  }

  /** After `past`, `l` is one call of the oldest pending function: it is started, does what it does, and its node
      returns. */
  ghost predicate IsCall(past: seq<Event>, fn: Fn, l: seq<Event>)
    decreases |l|, 0, 0
  {
    && |l| >= 2 && Oldest(past, fn) && l[0] == Start(fn) && l[|l| - 1] == Finish(fn)
    && DoesActs(past + [Start(fn)], fn.acts, l[1..|l| - 1])
  }

  /** Calls one after the other. */
  ghost predicate Calls(past: seq<Event>, l: seq<Event>)
    decreases |l|, 1, 0
  {
    l == [] || exists k :: 0 <= k < |l| && Calls(past, l[..k]) && IsCall(past + l[..k], l[k].fn, l[k..])
  }

  /** One run: calls until everything accepted has been started. */
  ghost predicate IsRun(past: seq<Event>, l: seq<Event>)
    decreases |l|, 2, 0
  {
    Calls(past, l) && Accepts(past + l) == Starts(past + l)
  }

  /** What a function does: every function it schedules is offered, in order, and accepted exactly while fewer than
      32 are pending or in flight; every run it asks for takes place. */
  ghost predicate DoesActs(past: seq<Event>, acts: seq<Act>, l: seq<Event>)
    decreases |l|, 3, |acts|
  {
    if acts == [] then l == []
    else
      match acts[0]
      case Schedule(fn) =>
        l != [] && l[0] == Offer(fn, Busy(past) < 32) && DoesActs(past + [l[0]], acts[1..], l[1..])
      case RunAll =>
        exists k :: 0 <= k <= |l| && IsRun(past, l[..k]) && DoesActs(past + l[..k], acts[1..], l[k..])
  }

  /** What was logged since `past`. */
  ghost function Since(past: seq<Event>, log: seq<Event>): seq<Event>
    requires past <= log
  {
    log[|past|..]
  }

  lemma OfferStep(past: seq<Event>, fn: Fn, rest: seq<Act>, mid: seq<Event>, log: seq<Event>)
    requires mid == past + [Offer(fn, Busy(past) < 32)] && mid <= log && DoesActs(mid, rest, Since(mid, log))
    ensures past <= log && DoesActs(past, [Schedule(fn)] + rest, Since(past, log))
  {
    hide Busy;
    var l := Since(past, log);
    assert l[1..] == Since(mid, log) && past + [l[0]] == mid;
    assert ([Schedule(fn)] + rest)[1..] == rest;
  }

  lemma RunStep(past: seq<Event>, rest: seq<Act>, mid: seq<Event>, log: seq<Event>)
    requires past <= mid <= log && IsRun(past, Since(past, mid)) && DoesActs(mid, rest, Since(mid, log))
    ensures past <= log && DoesActs(past, [RunAll] + rest, Since(past, log))
  {
    hide IsRun;
    var l, k := Since(past, log), |mid| - |past|;
    assert l[..k] == Since(past, mid) && l[k..] == Since(mid, log) && past + l[..k] == mid;
    assert ([RunAll] + rest)[1..] == rest;
  }

  lemma CallStep(past: seq<Event>, mid: seq<Event>, fn: Fn, log: seq<Event>)
    requires past <= mid <= log && Calls(past, Since(past, mid)) && IsCall(mid, fn, Since(mid, log))
    ensures Calls(past, Since(past, log))
  {
    var l, k := Since(past, log), |mid| - |past|;
    assert l[..k] == Since(past, mid) && l[k..] == Since(mid, log) && past + l[..k] == mid;
    assert l[k] == Since(mid, log)[0];
    hide DoesActs;
  }

  lemma WholeCall(past: seq<Event>, fn: Fn, mid: seq<Event>)
    requires Oldest(past, fn) && past + [Start(fn)] <= mid
    requires DoesActs(past + [Start(fn)], fn.acts, Since(past + [Start(fn)], mid))
    ensures IsCall(past, fn, Since(past, mid + [Finish(fn)]))
  {
    hide DoesActs, Oldest;
    var l := Since(past, mid + [Finish(fn)]);
    assert l[1..|l| - 1] == Since(past + [Start(fn)], mid);
  }

  /** A function that schedules another one: it is called, and while there is room, the other one is last in line. */
  lemma OneOffer(past: seq<Event>, fn: Fn, g: Fn, l: seq<Event>)
    requires fn.acts == [Schedule(g)] && IsCall(past, fn, l)
    ensures l == [Start(fn), Offer(g, Busy(past) < 32), Finish(fn)]
    ensures Accepts(past + l) == Accepts(past) + if Busy(past) < 32 then [Some(g)] else []
    ensures Starts(past + l) == Starts(past) + [Some(fn)]
  {
    Logged(past, Start(fn));
    var body := l[1..|l| - 1];
    var rest := fn.acts[1..];
    assert rest == [] && DoesActs(past + [Start(fn)] + [body[0]], rest, body[1..]);
    assert l == [l[0]] + body + [l[|l| - 1]];
    var one := past + [Start(fn)];
    Logged(one, Offer(g, Busy(past) < 32));
    Logged(one + [Offer(g, Busy(past) < 32)], Finish(fn));
    assert past + l == one + [Offer(g, Busy(past) < 32)] + [Finish(fn)];
  }

  // ---- The run is determined ----

  /** A sequence of calls begins with a call. */
  lemma {:induction false} FirstCall(past: seq<Event>, l: seq<Event>) returns (k: nat)
    requires Calls(past, l) && l != []
    ensures 0 < k <= |l| && IsCall(past, l[0].fn, l[..k]) && Calls(past + l[..k], l[k..])
    decreases |l|
  {
    hide IsCall;
    var j :| 0 <= j < |l| && Calls(past, l[..j]) && IsCall(past + l[..j], l[j].fn, l[j..]);
    if j == 0 {
      k := |l|;
      assert l[..j] == [] && l[j..] == l == l[..k] && past + [] == past && l[k..] == [];
    } else {
      k := FirstCall(past, l[..j]);
      assert l[..j][..k] == l[..k];
      OneMoreCall(past, l, k, j);
    }
  }

  lemma OneMoreCall(past: seq<Event>, l: seq<Event>, k: nat, j: nat)
    requires k <= j < |l| && Calls(past + l[..k], l[..j][k..]) && IsCall(past + l[..j], l[j].fn, l[j..])
    ensures Calls(past + l[..k], l[k..])
  {
    hide IsCall;
    var rest, n := l[k..], j - k;
    assert rest[..n] == l[..j][k..] && rest[n..] == l[j..] && rest[n] == l[j];
    assert past + l[..k] + rest[..n] == past + l[..j];
  }

  lemma OneOldest(past: seq<Event>, f: Fn, g: Fn)
    requires Oldest(past, f) && Oldest(past, g)
    ensures f == g
  {}

  lemma {:induction false} SameActs(past: seq<Event>, acts: seq<Act>, l: seq<Event>, m: seq<Event>)
    requires DoesActs(past, acts, l) && DoesActs(past, acts, m)
    ensures l == m
    decreases |l|, 3, |acts|
  {
    hide IsRun, Busy;
    if acts != [] {
      match acts[0] {
        case Schedule(fn) =>
          SameActs(past + [l[0]], acts[1..], l[1..], m[1..]);
          assert l == [l[0]] + l[1..] && m == [m[0]] + m[1..];
        case RunAll =>
          var j :| 0 <= j <= |l| && IsRun(past, l[..j]) && DoesActs(past + l[..j], acts[1..], l[j..]);
          var k :| 0 <= k <= |m| && IsRun(past, m[..k]) && DoesActs(past + m[..k], acts[1..], m[k..]);
          SameRun(past, l[..j], m[..k]);
          SameActs(past + l[..j], acts[1..], l[j..], m[k..]);
          assert l == l[..j] + l[j..] && m == m[..k] + m[k..];
      }
    }
  }

  lemma {:induction false} SameCall(past: seq<Event>, fn: Fn, l: seq<Event>, m: seq<Event>)
    requires IsCall(past, fn, l) && IsCall(past, fn, m)
    ensures l == m
    decreases |l|, 0, 0
  {
    hide DoesActs, Oldest;
    SameActs(past + [Start(fn)], fn.acts, l[1..|l| - 1], m[1..|m| - 1]);
    assert l == [l[0]] + l[1..|l| - 1] + [l[|l| - 1]] && m == [m[0]] + m[1..|m| - 1] + [m[|m| - 1]];
  }

  lemma CallOldest(past: seq<Event>, fn: Fn, l: seq<Event>)
    requires IsCall(past, fn, l)
    ensures Oldest(past, fn) && l[0] == Start(fn) && Accepts(past) != Starts(past)
  {}

  lemma NoRunLeft(past: seq<Event>, l: seq<Event>)
    requires IsRun(past, l) && Accepts(past) == Starts(past)
    ensures l == []
  {
    hide IsCall, Accepts, Starts, Oldest;
    if l != [] {
      var k := FirstCall(past, l);
      CallOldest(past, l[0].fn, l[..k]);
    }
  }

  /** What is pending decides everything that happens in a run: which functions are called, what is offered and
      accepted, and in which order. */
  lemma {:induction false} SameRun(past: seq<Event>, l: seq<Event>, m: seq<Event>)
    requires IsRun(past, l) && IsRun(past, m)
    ensures l == m
    decreases |l|, 2, 0
  {
    hide IsCall, Calls, Accepts, Starts, Oldest;
    assert past + [] == past;
    if l == [] || m == [] {
      NoRunLeft(past, l);
      NoRunLeft(past, m);
    } else {
      var j := FirstCall(past, l);
      var k := FirstCall(past, m);
      CallOldest(past, l[0].fn, l[..j]);
      CallOldest(past, m[0].fn, m[..k]);
      OneOldest(past, l[0].fn, m[0].fn);
      SameCall(past, l[0].fn, l[..j], m[..k]);
      assert past + l == past + l[..j] + l[j..] && past + m == past + m[..k] + m[k..];
      SameRun(past + l[..j], l[j..], m[k..]);
      assert l == l[..j] + l[j..] && m == m[..k] + m[k..];
    }
  }

  class Node {
    var next: Node?
    var func: Option<Fn>

    /** The node's place on its list, counted from the list's creation. */
    ghost var place: int

    constructor ()
      ensures next == null && func == None
    {
      next, func := null, None;
    }
  }

  /** A head and a tail pointer into linked nodes (`sFirst` and `sLast`, or `sFirstUnused` and `sLastUnused`). */
  class NodeList {
    var head: Node?
    var tail: Node?

    ghost var nodes: seq<Node>
    ghost var funcs: seq<Option<Fn>>
    ghost var base: int
    ghost var repr: set<object>

    /** The list is acyclic and linked from `head` to `tail`; an empty list has neither. */
    ghost predicate Valid()
      reads this, repr
      ensures Valid() ==> this in repr && |funcs| == |nodes| && (head == null <==> nodes == [])
    {
      && this in repr && |funcs| == |nodes|
      && (forall i :: 0 <= i < |nodes| ==> nodes[i] in repr)
      && (if nodes == [] then head == null && tail == null
          else head == nodes[0] && tail == nodes[|nodes| - 1] && nodes[|nodes| - 1].next == null)
      && (forall i :: 0 <= i < |nodes| ==>
            nodes[i].place == base + i && nodes[i].func == funcs[i])
      && (forall i :: 0 <= i < |nodes| - 1 ==> nodes[i].next == nodes[i + 1])
    }

    constructor ()
      ensures Valid() && nodes == [] && funcs == [] && fresh(repr) && repr == {this}
    {
      head, tail, nodes, funcs, base := null, null, [], [], 0;
      repr := {this};
    }

    method PushBack(n: Node)
      requires Valid() && n !in repr
      modifies repr, n
      ensures Valid() && repr == old(repr) + {n}
      ensures nodes == old(nodes) + [n] && funcs == old(funcs) + [old(n.func)]
    {
      n.next := null;
      n.place := base + |nodes|;
      if head == null {
        head := n;
      } else {
        assert forall i :: 0 <= i < |nodes| - 1 ==> nodes[i].place != tail.place;
        tail.next := n;
      }
      tail := n;
      nodes, funcs, repr := nodes + [n], funcs + [n.func], repr + {n};
    }

    method PopFront() returns (n: Node)
      requires Valid() && nodes != []
      modifies this
      ensures Valid() && repr == old(repr) - {n} && n in old(repr)
      ensures n == old(nodes)[0] && nodes == old(nodes)[1..] && funcs == old(funcs)[1..]
    {
      n := head;
      assert forall i :: 1 <= i < |nodes| ==> nodes[i].place != n.place;
      head := n.next;
      if head == null {
        tail := null;
      }
      nodes, funcs, base, repr := nodes[1..], funcs[1..], base + 1, repr - {n};
    }
  }

  class Scheduler {
    const pending: NodeList
    const unused: NodeList
    var count: nat

    /** The nodes whose function is running. */
    ghost var inFlight: set<Node>

    /** Everything that happened. */
    ghost var log: seq<Event>

    /** A function taken from the queue and not called yet. */
    ghost var taken: seq<Option<Fn>>

    /** The objects the scheduler is made of. */
    ghost var repr: set<object>

    /** Every allocated node is pending, unused or in flight, never two of these; what was accepted has been
        started, in the same order, or is still pending. */
    ghost predicate Valid()
      reads this, repr
      ensures Valid() ==> this in repr && pending in repr && unused in repr
    {
      && this in repr && pending in repr && unused in repr
      && pending.repr <= repr && unused.repr <= repr && inFlight <= repr
      && pending.Valid() && unused.Valid()
      && this !in pending.repr && this !in unused.repr && pending.repr !! unused.repr
      && (forall n :: n in inFlight ==> n !in pending.repr && n !in unused.repr)
      && |pending.nodes| + |unused.nodes| + |inFlight| == count <= MAX_COUNT
      && (forall i :: 0 <= i < |pending.funcs| ==> pending.funcs[i].Some?)
      && Accepts(log) == Starts(log) + taken + pending.funcs
    }

    /** Nobody is between taking a function and calling it, and the log knows how many nodes are in use. */
    ghost predicate Settled()
      reads this, pending
    {
      taken == [] && Busy(log) == |pending.nodes| + |inFlight|
    }

    constructor ()
      ensures Valid() && Settled() && count == 0 && log == [] && inFlight == {} && fresh(repr)
    {
      pending := new NodeList();
      unused := new NodeList();
      count, log, taken, inFlight := 0, [], [], {};
      new;
      repr := {this} + pending.repr + unused.repr;
    }

    /** Takes a node from the free list, or allocates one while fewer than 32 exist. */
    method GetFn() returns (result: Node?)
      requires Valid()
      modifies this, unused
      ensures Valid() && fresh(repr - old(repr))
      ensures log == old(log) && taken == old(taken)
      ensures result == null <==> old(unused.nodes) == [] && old(count) == MAX_COUNT
      ensures result == null ==> inFlight == old(inFlight)
      ensures result != null ==> result !in old(inFlight) && inFlight == old(inFlight) + {result}
    {
      hide NodeList.Valid;
      result := null;
      if unused.head != null {
        result := unused.PopFront();
        inFlight := inFlight + {result};
      } else if count != MAX_COUNT {
        result := Allocate();
      }
    }

    method Allocate() returns (result: Node)
      requires Valid() && count < MAX_COUNT
      modifies this
      ensures Valid() && fresh(result) && repr == old(repr) + {result}
      ensures log == old(log) && taken == old(taken)
      ensures inFlight == old(inFlight) + {result} && result !in old(inFlight)
    {
      hide NodeList.Valid;
      result := new Node();
      count := count + 1;
      inFlight, repr := inFlight + {result}, repr + {result};
    }

    /** Puts the node of a function that has run at the end of the free list. */
    method RecycleFn(item: Node, ghost fn: Fn)
      requires Valid() && item in inFlight
      modifies this, unused, unused.repr, item
      ensures Valid() && repr == old(repr)
      ensures log == old(log) + [Finish(fn)] && taken == old(taken) && inFlight == old(inFlight) - {item}
      ensures pending.nodes == old(pending.nodes) && pending.funcs == old(pending.funcs)
    {
      hide NodeList.Valid, Accepts, Starts, Finishes;
      Logged(log, Finish(fn));
      inFlight := inFlight - {item};
      unused.PushBack(item);
      log := log + [Finish(fn)];
    }

    /** Fails exactly when all 32 nodes are pending or in flight. */
    method ScheduleFunction(fn: Fn) returns (ok: bool)
      requires Valid() && Settled()
      modifies repr
      ensures Valid() && Settled() && fresh(repr - old(repr))
      ensures inFlight == old(inFlight)
      ensures ok <==> |old(pending.nodes)| + |old(inFlight)| < 32
      ensures pending.funcs == if ok then old(pending.funcs) + [Some(fn)] else old(pending.funcs)
      ensures log == old(log) + [Offer(fn, ok)]
    {
      hide NodeList.Valid, Accepts, Starts, Finishes;
      Logged(log, Offer(fn, true));
      Logged(log, Offer(fn, false));
      var item := GetFn();
      if item == null {
        log := log + [Offer(fn, false)];
        return false;
      }
      Enqueue(item, fn);
      return true;
    }

    method Enqueue(item: Node, fn: Fn)
      requires Valid() && item in inFlight
      modifies this, pending, pending.repr, item
      ensures Valid() && repr == old(repr)
      ensures inFlight == old(inFlight) - {item} && taken == old(taken)
      ensures |pending.nodes| == |old(pending.nodes)| + 1
      ensures pending.funcs == old(pending.funcs) + [Some(fn)] && log == old(log) + [Offer(fn, true)]
    {
      hide NodeList.Valid, Accepts, Starts, Finishes;
      Logged(log, Offer(fn, true));
      item.func := Some(fn);
      inFlight := inFlight - {item};
      pending.PushBack(item);
      log := log + [Offer(fn, true)];
    }

    /** Takes the oldest pending function for running. */
    method Dequeue() returns (item: Node, fn: Fn)
      requires Valid() && taken == [] && pending.nodes != []
      modifies this, pending
      ensures Valid() && repr == old(repr)
      ensures item !in old(inFlight) && inFlight == old(inFlight) + {item}
      ensures log == old(log) && taken == [Some(fn)] && Oldest(log, fn)
      ensures old(pending.funcs) == [Some(fn)] + pending.funcs && |old(pending.nodes)| == |pending.nodes| + 1
    {
      PendingHead();
      hide NodeList.Valid, Accepts, Starts;
      item := pending.PopFront();
      fn := item.func.value;
      inFlight := inFlight + {item};
      taken := [Some(fn)];
    }

    lemma PendingHead()
      requires Valid() && pending.nodes != []
      ensures pending.nodes[0].func == pending.funcs[0]
      ensures pending.nodes[0].func.Some?
    {}

    /** Runs until nothing is pending: the log grows by calls, each of the oldest pending function, until everything
        accepted, before or meanwhile, has been started, exactly once and in the order it was accepted; the nodes
        taken are back on the free list. */
    method RunScheduledFunctions(ghost budget: nat)
      requires Valid() && Settled() && Work(pending.funcs) <= budget
      modifies repr
      ensures Valid() && Settled() && fresh(repr - old(repr))
      ensures pending.nodes == [] && Work(pending.funcs) == 0
      ensures old(log) <= log && IsRun(old(log), Since(old(log), log)) && Accepts(log) == Starts(log)
      ensures inFlight == old(inFlight)
      decreases budget, 0, 1
    {
      hide NodeList.Valid, Work, Calls, IsCall, Accepts, Starts, Finishes, Busy;
      ghost var past := log;
      NoCalls(past);
      while pending.head != null
        invariant Valid() && Settled() && fresh(repr - old(repr))
        invariant inFlight == old(inFlight) && past <= log && Calls(past, Since(past, log))
        invariant Work(pending.funcs) <= budget
        decreases Work(pending.funcs)
      {
        ghost var mid, fn := log, pending.funcs[0].value;
        RunNext(budget);
        CallStep(past, mid, fn, log);
      }
      NothingPending();
      assert past + Since(past, log) == log;
    }

    lemma NothingPending()
      requires Valid() && pending.nodes == []
      ensures pending.funcs == [] && Work(pending.funcs) == 0
    {}

    /** One pass of the loop: the oldest pending function is called, does what it does, and its node goes back to
        the free list. */
    method RunNext(ghost budget: nat)
      requires Valid() && Settled() && pending.nodes != [] && Work(pending.funcs) <= budget
      modifies repr
      ensures Valid() && Settled() && fresh(repr - old(repr))
      ensures inFlight == old(inFlight)
      ensures old(log) <= log && IsCall(old(log), old(pending.funcs)[0].value, Since(old(log), log))
      ensures Work(pending.funcs) < old(Work(pending.funcs))
      decreases budget, 0, 0
    {
      hide NodeList.Valid, IsCall, DoesActs, Accepts, Starts, Finishes;
      ghost var past, before := log, pending.funcs;
      var item, fn := Dequeue();
      assert before[1..] == pending.funcs;
      hide Work, FnSize, Oldest;
      Call(fn, budget - 1);
      ghost var mid := log;
      item.func := None;
      RecycleFn(item, fn);
      WholeCall(past, fn, mid);
      Logged(mid, Finish(fn));
    }

    /** The call of a function. */
    method Call(fn: Fn, ghost budget: nat)
      requires Valid() && taken == [Some(fn)] && Busy(log) == |pending.nodes| + |inFlight|
      requires Work(pending.funcs) + ActsSize(fn.acts) <= budget
      modifies repr
      ensures Valid() && Settled() && fresh(repr - old(repr))
      ensures inFlight == old(inFlight)
      ensures old(log) + [Start(fn)] <= log
      ensures DoesActs(old(log) + [Start(fn)], fn.acts, Since(old(log) + [Start(fn)], log))
      ensures Work(pending.funcs) <= old(Work(pending.funcs)) + ActsSize(fn.acts)
      decreases budget, 2, 0
    {
      hide NodeList.Valid, Work, DoesActs, Accepts, Starts, Finishes;
      Logged(log, Start(fn));
      log, taken := log + [Start(fn)], [];
      Perform(fn.acts, budget);
    }

    /** What a callback does to the scheduler while it runs. */
    method Perform(acts: seq<Act>, ghost budget: nat)
      requires Valid() && Settled() && Work(pending.funcs) + ActsSize(acts) <= budget
      modifies repr
      ensures Valid() && Settled() && fresh(repr - old(repr))
      ensures inFlight == old(inFlight)
      ensures old(log) <= log && DoesActs(old(log), acts, Since(old(log), log))
      ensures Work(pending.funcs) <= old(Work(pending.funcs)) + ActsSize(acts)
      decreases budget, 1, |acts|
    {
      hide NodeList.Valid, Work, Accepts, Starts, Finishes, IsRun;
      ghost var past := log;
      if acts != [] {
        ghost var rest := acts[1..];
        assert acts == [acts[0]] + rest;
        match acts[0] {
          case Schedule(fn) =>
            WorkAppend(pending.funcs, Some(fn));
            var ok := ScheduleFunction(fn);
            ghost var mid := log;
            Perform(acts[1..], budget);
            OfferStep(past, fn, rest, mid, log);
          case RunAll =>
            RunScheduledFunctions(budget - 1);
            ghost var mid := log;
            Perform(acts[1..], budget);
            RunStep(past, rest, mid, log);
        }
      }
    }
  }

  lemma NoCalls(past: seq<Event>)
    ensures Calls(past, Since(past, past))
  {}
}
