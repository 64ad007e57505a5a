/** The I2S output driver: a queue of free DMA buffers shared by the DMA-finished interrupt and the writer. */
module I2sQueue {
  import opened Option

  const BUFFERS: nat := 8
  const BUFFER_LEN: nat := 64

  type Sample = bv32

  /** Where the writer stands inside `i2s_write_sample`: outside, about to pop a buffer from the queue
      (the queue was not empty when it looked), about to rewind, or about to store. */
  datatype Stage = Outside | Popping(sample: Sample) | Rewinding(sample: Sample) | Storing(sample: Sample)

  datatype Driver = Driver(
    queue: seq<nat>, buffers: seq<seq<Sample>>, current: Option<nat>, pos: nat, stage: Stage)

  function Silence(): seq<Sample> {
    seq(BUFFER_LEN, _ => 0)
  }

  // ---- The operations on the driver's globals ----

  function NextItem(queue: seq<nat>): (nat, seq<nat>)
    requires queue != []
  {
    (queue[0], queue[1..])
  }

  /** The interrupt: mute the finished buffer and append it, dropping the oldest if all are free. */
  function Finish(d: Driver, finished: nat): Driver
    requires finished < |d.buffers|
  {
    var queue := if |d.queue| >= BUFFERS - 1 then NextItem(d.queue).1 else d.queue;
    d.(buffers := d.buffers[finished := Silence()], queue := queue + [finished])
  }

  /** A finished buffer is muted and goes last; the queue grows by it unless seven are free, when the oldest goes. */
  lemma FinishGrows(d: Driver, finished: nat)
    requires finished < |d.buffers|
    ensures var e := Finish(d, finished);
            && e.queue == (if |d.queue| < 7 then d.queue else d.queue[1..]) + [finished]
            && |e.buffers| == |d.buffers| && |e.buffers[finished]| == 64
            && (forall i :: 0 <= i < 64 ==> e.buffers[finished][i] == 0)
            && (forall b :: 0 <= b < |d.buffers| && b != finished ==> e.buffers[b] == d.buffers[b])
            && e.current == d.current && e.pos == d.pos && e.stage == d.stage
  {}

  predicate NeedsBuffer(d: Driver) {
    d.pos == BUFFER_LEN || d.current == None
  }

  /** One step of `i2s_write_sample` or `i2s_write_sample_nb`; with an empty queue the one spins and the
      other gives up, and nothing changes. */
  function WriterStep(d: Driver, sample: Sample): Driver
    requires d.stage.Popping? ==> d.queue != []
    requires d.stage.Storing? ==> d.current.Some? && d.current.value < |d.buffers|
                                   && d.pos < |d.buffers[d.current.value]|
  {
    match d.stage
    case Outside =>
      if !NeedsBuffer(d) then d.(stage := Storing(sample))
      else if d.queue == [] then d
      else d.(stage := Popping(sample))
    case Popping(x) =>
      var (item, queue) := NextItem(d.queue);
      d.(current := Some(item), queue := queue, stage := Rewinding(x))
    case Rewinding(x) => d.(pos := 0, stage := Storing(x))
    case Storing(x) =>
      var b := d.current.value;
      d.(buffers := d.buffers[b := d.buffers[b][d.pos := x]], pos := d.pos + 1, stage := Outside)
  }

  // ---- Runs ----

  /** What an observer records: how many buffers the DMA has finished, the number of the finish that freed
      the buffer the writer holds, for every finish number the samples written to the buffer it freed, and
      what each transmission played. */
  datatype Watch = Watch(
    d: Driver, finished: nat, slot: nat, written: map<nat, seq<Sample>>, played: seq<seq<Sample>>, stream: seq<Sample>)

  datatype Action = DmaFinished | Writer(sample: Sample)

  /** The DMA engine cycles through the buffers: transmission `k` uses this one. */
  function BufferOf(k: nat): (b: nat)
    ensures b < BUFFERS
  {
    k % BUFFERS
  }

  /** The buffer now being transmitted. */
  function Transmitting(w: Watch): nat {
    BufferOf(w.finished)
  }

  lemma BuffersDiffer(i: nat, j: nat)
    requires i < j < i + BUFFERS
    ensures BufferOf(i) != BufferOf(j) && BufferOf(i + BUFFERS) == BufferOf(i)
  {}

  /** The free queue is the contiguous run of buffers ending at the most recently finished one. */
  ghost predicate QueueOk(w: Watch) {
    var q := w.d.queue;
    && |q| <= BUFFERS - 1 && |q| <= w.finished
    && forall i :: 0 <= i < |q| ==> q[i] == BufferOf(w.finished - |q| + i)
  }

  ghost predicate WriterOk(w: Watch) {
    var d := w.d;
    && d.pos <= BUFFER_LEN
    && (d.current.Some? ==> d.current.value == BufferOf(w.slot) && w.slot < w.finished - |d.queue|)
    && (d.stage.Popping? ==> d.queue != [] && NeedsBuffer(d))
    && (d.stage.Rewinding? ==> d.current.Some?)
    && (d.stage.Storing? ==> d.current.Some? && d.pos < BUFFER_LEN)
  }

  ghost predicate Sane(w: Watch) {
    && |w.d.buffers| == BUFFERS
    && (forall b :: 0 <= b < BUFFERS ==> |w.d.buffers[b]| == BUFFER_LEN)
    && QueueOk(w) && WriterOk(w)
  }

  function Samples(written: map<nat, seq<Sample>>, k: nat): seq<Sample> {
    if k in written then written[k] else []
  }

  ghost function Observe(w: Watch, a: Action): Watch
    requires Sane(w)
  {
    match a
    case DmaFinished =>
      var b := Transmitting(w);
      w.(d := Finish(w.d, b), finished := w.finished + 1, played := w.played + [w.d.buffers[b]])
    case Writer(sample) =>
      var e := w.(d := WriterStep(w.d, sample));
      match w.d.stage
      case Popping(_) =>
        var slot := w.finished - |w.d.queue|;
        e.(slot := slot, written := w.written[slot := []])
      case Storing(x) =>
        e.(written := w.written[w.slot := Samples(w.written, w.slot) + [x]], stream := w.stream + [x])
      case _ => e
  }

  lemma FinishSane(w: Watch)
    requires Sane(w)
    ensures Sane(Observe(w, DmaFinished))
  {
    hide BufferOf;
    var w' := Observe(w, DmaFinished);
    var q, q' := w.d.queue, w'.d.queue;
    forall i | 0 <= i < |q'| ensures q'[i] == BufferOf(w'.finished - |q'| + i) {
      if i < |q'| - 1 {
        var j := if |q| == BUFFERS - 1 then i + 1 else i;
        assert q'[i] == q[j];
      }
    }
  }

  lemma WriterSane(w: Watch, sample: Sample)
    requires Sane(w)
    ensures Sane(Observe(w, Writer(sample)))
  {
    hide BufferOf;
  }

  /** In every run, however interrupts and the writer's steps interleave, the free buffers are at most seven
      distinct ones and the buffer on air is not among them. */
  lemma FreeBuffers(w: Watch)
    requires Sane(w)
    ensures |w.d.queue| < BUFFERS && Transmitting(w) !in w.d.queue
    ensures forall i, j :: 0 <= i < j < |w.d.queue| ==> w.d.queue[i] != w.d.queue[j]
  {
    hide BufferOf;
    var q := w.d.queue;
    forall i | 0 <= i < |q| ensures q[i] != Transmitting(w) {
      BuffersDiffer(w.finished - |q| + i, w.finished);
    }
    forall i, j | 0 <= i < j < |q| ensures q[i] != q[j] {
      BuffersDiffer(w.finished - |q| + i, w.finished - |q| + j);
    }
  }

  /** A buffer handed to the writer is not on air, and with `n` free buffers (itself included) it goes on
      air after exactly 8 - n more completions. */
  lemma HandedOutInTime(w: Watch, sample: Sample)
    requires Sane(w) && w.d.stage.Popping?
    ensures var b := Observe(w, Writer(sample)).d.current;
            && b.Some? && b.value != Transmitting(w)
            && b.value == BufferOf(w.finished + (BUFFERS - |w.d.queue|))
            && forall k :: w.finished <= k < w.finished + (BUFFERS - |w.d.queue|) ==> BufferOf(k) != b.value
  {
    hide BufferOf;
    var slot := w.finished - |w.d.queue|;
    BuffersDiffer(slot, slot + 1);
    forall k | w.finished <= k < w.finished + (BUFFERS - |w.d.queue|) ensures BufferOf(k) != BufferOf(slot) {
      BuffersDiffer(slot, k);
    }
    assert BufferOf(w.finished) != BufferOf(slot);
  }

  // ---- What is heard ----

  function Padded(samples: seq<Sample>): seq<Sample> {
    if |samples| <= BUFFER_LEN then samples + seq(BUFFER_LEN - |samples|, _ => 0) else samples
  }

  /** The samples meant for transmission `t`: those written to the buffer that finish `t` - 8 freed. */
  function Meant(written: map<nat, seq<Sample>>, t: nat): seq<Sample> {
    if t >= BUFFERS then Samples(written, t - BUFFERS) else []
  }

  /** The samples of the first `n` buffers freed, in the order the buffers go on air. */
  function InOrder(written: map<nat, seq<Sample>>, n: nat): seq<Sample> {
    if n == 0 then [] else InOrder(written, n - 1) + Samples(written, n - 1)
  }

  /** A store comes in time if the buffer it goes to is not on air yet. */
  ghost predicate InTime(w: Watch) {
    w.d.stage.Storing? ==> w.finished < w.slot + BUFFERS
  }

  /** Every transmission so far played the samples meant for it, padded with silence; the buffers hold
      those meant for the next eight; and the samples accepted are the ones meant, in order, with every
      buffer but the writer's own filled completely. */
  ghost predicate Faithful(w: Watch)
    requires Sane(w)
  {
    && (forall t :: 0 <= t < |w.played| ==> w.played[t] == Padded(Meant(w.written, t)))
    && |w.played| == w.finished
    && (forall t :: w.finished <= t < w.finished + BUFFERS ==>
         w.d.buffers[BufferOf(t)] == Padded(Meant(w.written, t)))
    && (forall k :: k in w.written ==> k < w.finished - |w.d.queue| && k <= w.slot && w.d.current.Some?)
    && (forall k :: k in w.written && k < w.slot ==> |w.written[k]| == BUFFER_LEN)
    && (w.d.current.Some? ==> |Samples(w.written, w.slot)| == if w.d.stage.Rewinding? then 0 else w.d.pos)
    && w.stream == if w.d.current.Some? then InOrder(w.written, w.slot + 1) else []
  }

  lemma FinishFaithful(w: Watch)
    requires Sane(w) && Faithful(w)
    ensures Sane(Observe(w, DmaFinished)) && Faithful(Observe(w, DmaFinished))
  {
    FinishSane(w);
    FinishBuffers(w);
    hide BufferOf, Padded, Sane, Meant;
    assert w.d.buffers[Transmitting(w)] == Padded(Meant(w.written, w.finished));
  }

  lemma FinishBuffers(w: Watch)
    requires Sane(w) && Faithful(w)
    ensures var w' := Observe(w, DmaFinished);
            |w'.d.buffers| == BUFFERS && forall t :: w'.finished <= t < w'.finished + BUFFERS ==>
              w'.d.buffers[BufferOf(t)] == Padded(Meant(w'.written, t))
  {
    hide BufferOf, Padded;
    PaddedNothing();
    BuffersDiffer(w.finished, w.finished + 1);
    var w' := Observe(w, DmaFinished);
    forall t | w'.finished <= t < w'.finished + BUFFERS
      ensures w'.d.buffers[BufferOf(t)] == Padded(Meant(w'.written, t))
    {
      if t < w.finished + BUFFERS {
        BuffersDiffer(w.finished, t);
      } else {
        assert w.finished !in w.written;
      }
    }
  }

  lemma PaddedNothing()
    ensures Padded([]) == Silence()
  {}

  lemma {:induction false} InOrderFrame(a: map<nat, seq<Sample>>, b: map<nat, seq<Sample>>, n: nat)
    requires forall k :: 0 <= k < n ==> Samples(a, k) == Samples(b, k)
    ensures InOrder(a, n) == InOrder(b, n)
  {
    if n > 0 {
      InOrderFrame(a, b, n - 1);
    }
  }

  lemma {:induction false} InOrderSkips(written: map<nat, seq<Sample>>, m: nat, n: nat)
    requires m <= n && forall k :: m <= k < n ==> Samples(written, k) == []
    ensures InOrder(written, n) == InOrder(written, m)
    decreases n
  {
    if m < n {
      InOrderSkips(written, m, n - 1);
    }
  }

  lemma PopFaithful(w: Watch, sample: Sample)
    requires Sane(w) && Faithful(w) && w.d.stage.Popping?
    ensures Faithful(Observe(w, Writer(sample)))
  {
    hide BufferOf, Padded;
    var w' := Observe(w, Writer(sample));
    forall t: nat ensures Meant(w'.written, t) == Meant(w.written, t) {}
    if w.d.current.Some? {
      InOrderFrame(w'.written, w.written, w.slot + 1);
      InOrderSkips(w'.written, w.slot + 1, w'.slot + 1);
    } else {
      InOrderSkips(w'.written, 0, w'.slot + 1);
    }
  }

  lemma PaddedStore(samples: seq<Sample>, x: Sample)
    requires |samples| < BUFFER_LEN
    ensures |Padded(samples)| == BUFFER_LEN
    ensures Padded(samples)[|samples| := x] == Padded(samples + [x])
  {}

  lemma StoreFaithful(w: Watch, sample: Sample)
    requires Sane(w) && Faithful(w) && w.d.stage.Storing? && InTime(w)
    ensures Faithful(Observe(w, Writer(sample)))
  {
    StoreBuffers(w, sample);
    var w' := Observe(w, Writer(sample));
    hide BufferOf, Padded;
    InOrderFrame(w'.written, w.written, w.slot);
  }

  lemma StoreBuffers(w: Watch, sample: Sample)
    requires Sane(w) && Faithful(w) && w.d.stage.Storing? && InTime(w)
    ensures var w' := Observe(w, Writer(sample));
            |w'.d.buffers| == BUFFERS && forall t :: w'.finished <= t < w'.finished + BUFFERS ==>
              w'.d.buffers[BufferOf(t)] == Padded(Meant(w'.written, t))
  {
    hide BufferOf, Padded;
    var x := w.d.stage.sample;
    var w' := Observe(w, Writer(sample));
    var home := w.slot + BUFFERS;
    BuffersDiffer(w.slot, w.slot + 1);
    PaddedStore(Samples(w.written, w.slot), x);
    forall t | w'.finished <= t < w'.finished + BUFFERS
      ensures w'.d.buffers[BufferOf(t)] == Padded(Meant(w'.written, t))
    {
      if t < home {
        BuffersDiffer(t, home);
      } else if t > home {
        BuffersDiffer(home, t);
      }
    }
  }

  lemma OtherFaithful(w: Watch, sample: Sample)
    requires Sane(w) && Faithful(w) && (w.d.stage.Outside? || w.d.stage.Rewinding?)
    ensures Faithful(Observe(w, Writer(sample)))
  {
    hide BufferOf, Padded;
  }

  ghost function Run(w: Watch, actions: seq<Action>): Watch
    requires Sane(w)
    ensures Sane(Run(w, actions))
    decreases |actions|
  {
    if actions == [] then w
    else
      StepSane(w, actions[0]);
      Run(Observe(w, actions[0]), actions[1..])
  }

  lemma StepSane(w: Watch, a: Action)
    requires Sane(w)
    ensures Sane(Observe(w, a))
  {
    match a {
      case DmaFinished => FinishSane(w);
      case Writer(sample) => WriterSane(w, sample);
    }
  }

  ghost predicate AlwaysInTime(w: Watch, actions: seq<Action>)
    requires Sane(w)
    decreases |actions|
  {
    actions == [] ||
    ((actions[0].Writer? ==> InTime(w)) &&
     (StepSane(w, actions[0]); AlwaysInTime(Observe(w, actions[0]), actions[1..])))
  }

  /** No loss, no duplication, no reordering: in every run in which stores come in time, under any
      interleaving, each transmission plays exactly the samples meant for it, padded with silence. */
  lemma {:induction false} RunFaithful(w: Watch, actions: seq<Action>)
    requires Sane(w) && Faithful(w) && AlwaysInTime(w, actions)
    ensures Faithful(Run(w, actions))
    decreases |actions|
  {
    if actions != [] {
      StepSane(w, actions[0]);
      match actions[0] {
        case DmaFinished => FinishFaithful(w);
        case Writer(sample) =>
          if w.d.stage.Popping? {
            PopFaithful(w, sample);
          } else if w.d.stage.Storing? {
            StoreFaithful(w, sample);
          } else {
            OtherFaithful(w, sample);
          }
      }
      hide Sane, Faithful, Observe;
      RunFaithful(Observe(w, actions[0]), actions[1..]);
    }
  }

  /** The state set up by `i2s_slc_begin`. */
  function Begin(): Watch {
    Watch(Driver([], seq(BUFFERS, _ => Silence()), None, 0, Outside), 0, 0, map[], [], [])
  }

  lemma BeginFaithful()
    ensures Sane(Begin()) && Faithful(Begin())
  {
    PaddedNothing();
    hide Padded, BufferOf;
  }

  // ---- The driver's code ----

  predicate Usable(d: Driver) {
    && |d.buffers| == BUFFERS && d.pos <= BUFFER_LEN
    && (forall b :: 0 <= b < BUFFERS ==> |d.buffers[b]| == BUFFER_LEN)
    && (forall i :: 0 <= i < |d.queue| ==> d.queue[i] < BUFFERS)
    && (d.current.Some? ==> d.current.value < BUFFERS)
  }

  /** The writer's steps from start to end without an interrupt in between. */
  function WholeWrite(d: Driver, sample: Sample): Driver
    requires Usable(d) && d.stage.Outside? && !(NeedsBuffer(d) && d.queue == [])
  {
    var ready := if NeedsBuffer(d)
                 then WriterStep(WriterStep(WriterStep(d, sample), sample), sample)
                 else WriterStep(d, sample);
    WriterStep(ready, sample)
  }

  /** After it the sample is stored, at the start of the buffer that was free the longest if a new one was needed. */
  lemma WholeWriteStores(d: Driver, sample: Sample)
    requires Usable(d) && d.stage.Outside? && !(NeedsBuffer(d) && d.queue == [])
    ensures var e := WholeWrite(d, sample);
            var another := d.pos == 64 || d.current == None;
            var b := if another then d.queue[0] else d.current.value;
            var at := if another then 0 else d.pos;
            && e == d.(current := Some(b), pos := at + 1, queue := if another then d.queue[1..] else d.queue,
                       buffers := d.buffers[b := d.buffers[b][at := sample]])
  {}

  class I2s {
    const queue: array<nat>
    var queueLen: nat
    const buffers: array<seq<Sample>>
    var current: Option<nat>
    var pos: nat

    ghost predicate Valid()
      reads this, queue, buffers
    {
      && queue.Length == BUFFERS - 1 && queueLen <= queue.Length && pos <= BUFFER_LEN
      && (forall i :: 0 <= i < queueLen ==> queue[i] < BUFFERS)
      && (current.Some? ==> current.value < BUFFERS)
      && buffers.Length == BUFFERS
      && (forall b :: 0 <= b < BUFFERS ==> |buffers[b]| == BUFFER_LEN)
    }

    /** The driver's globals as a value. */
    ghost function State(): Driver
      requires Valid()
      reads this, queue, buffers
    {
      Driver(queue[..queueLen], buffers[..], current, pos, Outside)
    }

    constructor ()
      ensures Valid() && State() == Begin().d && fresh(queue) && fresh(buffers)
    {
      queue := new nat[BUFFERS - 1](_ => 0);
      buffers := new seq<Sample>[BUFFERS](_ => Silence());
      queueLen, current, pos := 0, None, 0;
    }

    /** Pops the head by shifting the rest down. */
    method QueueNextItem() returns (item: nat)
      requires Valid() && queueLen > 0
      modifies this`queueLen, queue
      ensures Valid() && queueLen == old(queueLen) - 1
      ensures (item, queue[..queueLen]) == NextItem(old(queue[..queueLen]))
    {
      item := queue[0];
      queueLen := queueLen - 1;
      var i: nat := 0;
      while i < queueLen
        invariant i <= queueLen == old(queueLen) - 1
        invariant forall k :: 0 <= k < i ==> queue[k] == old(queue[k + 1])
        invariant forall k :: i <= k < queue.Length ==> queue[k] == old(queue[k])
      {
        queue[i] := queue[i + 1];
        i := i + 1;
      }
      assert queue[..queueLen] == old(queue[..queueLen])[1..];
    }

    method SlcIsr(finished: nat)
      requires Valid() && finished < BUFFERS
      modifies this`queueLen, queue, buffers
      ensures Valid() && State() == Finish(old(State()), finished)
    {
      buffers[finished] := Silence();
      if queueLen >= BUFFERS - 1 {
        var dropped := QueueNextItem();
      }
      ghost var left := queue[..queueLen];
      queue[queueLen] := finished;
      queueLen := queueLen + 1;
      assert queue[..queueLen] == left + [finished];
    }

    /** The non-blocking write, uninterrupted: it fails exactly when a buffer is needed and none is free;
        otherwise it does what the writer's steps do one after the other. */
    method WriteSampleNb(sample: Sample) returns (ok: bool)
      requires Valid()
      modifies this, queue, buffers
      ensures Valid()
      ensures ok <==> !(NeedsBuffer(old(State())) && old(queueLen) == 0)
      ensures State() == if ok then WholeWrite(old(State()), sample) else old(State())
    {
      if pos == BUFFER_LEN || current == None {
        if queueLen == 0 {
          return false;
        }
        var item := QueueNextItem();
        current := Some(item);
        pos := 0;
      }
      buffers[current.value] := buffers[current.value][pos := sample];
      pos := pos + 1;
      return true;
    }
  }
}
