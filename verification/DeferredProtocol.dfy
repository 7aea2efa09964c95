/** Posters, interrupt posters and the draining worker of one priority, interleaved. Each critical
    section is one atomic step (it runs under the spinlock); the give after it, and each iteration
    of the worker, are separate steps. */
module DeferredProtocol {
  import opened Arith
  import opened Deferred

  /** A poster between calls, waiting for the lock, or past it and still owing the give. */
  datatype Poster = Free | Posting(slot: Slot) | Owing

  /** The worker blocked on the semaphore, draining, running a callback, or having just seen an empty queue. */
  datatype Worker = Waiting | Draining | Running(slot: Slot) | SawEmpty

  /** `accepted`, `executed`, `rejected` and `peak` only record the run. */
  datatype State = State(queue: Queue, sem: nat, worker: Worker, posters: seq<Poster>,
                         accepted: seq<Slot>, executed: seq<Slot>, rejected: nat, peak: nat)

  /** Task posts and interrupt posts take the same steps. */
  datatype Move =
    | Call(p: nat, slot: Slot) | Critical(p: nat) | Give(p: nat)
    | Take | Pop | Finish | Loop

  function Init(capacity: nat, posters: nat): State {
    State(Queue([], capacity, 0, 0), 0, Waiting, seq(posters, _ => Free), [], [], 0, 0)
  }

  /** The semaphore saturates at the queue capacity. */
  function Given(s: State): State {
    if s.sem < s.queue.capacity then s.(sem := s.sem + 1) else s
  }

  function PosterStep(s: State, m: Move, p: nat): State
    requires p < |s.posters|
  {
    match (m, s.posters[p])
    case (Call(_, slot), Free) =>
      if slot.cb == 0 then s else s.(posters := s.posters[p := Posting(slot)])
    case (Critical(_), Posting(slot)) =>
      var q := Enqueue(s.queue, slot);
      if |s.queue.items| < s.queue.capacity then
        s.(queue := q, posters := s.posters[p := Owing], accepted := s.accepted + [slot], peak := Max(s.peak, |q.items|))
      else
        s.(queue := q, posters := s.posters[p := Free], rejected := s.rejected + 1)
    case (Give(_), Owing) => Given(s.(posters := s.posters[p := Free]))
    case _ => s
  }

  function WorkerStep(s: State, m: Move): State {
    match (m, s.worker)
    case (Take, Waiting) => if s.sem > 0 then s.(sem := s.sem - 1, worker := Draining) else s
    case (Pop, Draining) =>
      var (slot, q) := Dequeue(s.queue);
      s.(queue := q, worker := if slot.cb == 0 then SawEmpty else Running(slot))
    case (Finish, Running(slot)) => s.(executed := s.executed + [slot], worker := Draining)
    case (Loop, SawEmpty) => s.(worker := Waiting)
    case _ => s
  }

  function Step(s: State, m: Move): State {
    if m.Call? || m.Critical? || m.Give? then (if m.p < |s.posters| then PosterStep(s, m, m.p) else s)
    else WorkerStep(s, m)
  }

  function Run(s: State, ms: seq<Move>): State {
    if |ms| == 0 then s else Step(Run(s, ms[..|ms| - 1]), ms[|ms| - 1])
  }

  // ---------- the invariant ----------

  function InProgress(w: Worker): seq<Slot> {
    if w.Running? then [w.slot] else []
  }

  predicate GivePending(s: State) {
    s.sem > 0 || exists p :: 0 <= p < |s.posters| && s.posters[p].Owing?
  }

  predicate Inv(s: State) {
    && Sound(s.queue) && s.sem <= s.queue.capacity
    && s.accepted == s.executed + InProgress(s.worker) + s.queue.items
    && s.queue.dropped == s.rejected % U32
    && s.queue.highWater == s.peak
    && (forall p :: 0 <= p < |s.posters| && s.posters[p].Posting? ==> s.posters[p].slot.cb != 0)
    && ((s.worker.Waiting? || s.worker.SawEmpty?) && |s.queue.items| > 0 ==> GivePending(s))
  }

  lemma CriticalInv(s: State, p: nat)
    requires Inv(s) && p < |s.posters|
    ensures Inv(PosterStep(s, Critical(p), p))
  {
    var q := PosterStep(s, Critical(p), p);
    if s.posters[p].Posting? && |s.queue.items| < s.queue.capacity {
      assert q.posters[p].Owing?;
    } else if s.posters[p].Posting? {
      ModSum(s.rejected, 1, U32);
      if GivePending(s) && s.sem == 0 {
        var o :| 0 <= o < |s.posters| && s.posters[o].Owing?;
        assert q.posters[o].Owing?;
      }
    }
  }

  lemma GiveInv(s: State, p: nat)
    requires Inv(s) && p < |s.posters|
    ensures Inv(PosterStep(s, Give(p), p))
  {
  }

  lemma CallInv(s: State, p: nat, slot: Slot)
    requires Inv(s) && p < |s.posters|
    ensures Inv(PosterStep(s, Call(p, slot), p))
  {
    var q := PosterStep(s, Call(p, slot), p);
    if GivePending(s) && s.sem == 0 {
      var o :| 0 <= o < |s.posters| && s.posters[o].Owing?;
      assert q.posters[o].Owing?;
    }
  }

  lemma WorkerInv(s: State, m: Move)
    requires Inv(s)
    ensures Inv(WorkerStep(s, m))
  {
    if m.Pop? && s.worker.Draining? && |s.queue.items| > 0 {
      assert s.queue.items == [s.queue.items[0]] + s.queue.items[1..];
    }
    if GivePending(s) && s.sem == 0 {
      var o :| 0 <= o < |s.posters| && s.posters[o].Owing?;
      assert WorkerStep(s, m).posters[o].Owing?;
    }
  }

  lemma StepInv(s: State, m: Move)
    requires Inv(s)
    ensures Inv(Step(s, m)) && |Step(s, m).posters| == |s.posters|
  {
    hide Inv;
    if m.Call? || m.Critical? || m.Give? {
      if m.p < |s.posters| {
        match m {
          case Call(p, slot) => CallInv(s, p, slot);
          case Critical(p) => CriticalInv(s, p);
          case Give(p) => GiveInv(s, p);
        }
      }
    } else {
      WorkerInv(s, m);
    }
  }

  /** The invariant holds after any interleaving of any number of posters with the worker. */
  lemma {:induction false} AlwaysInv(capacity: nat, posters: nat, ms: seq<Move>)
    requires capacity > 0
    ensures Inv(Run(Init(capacity, posters), ms))
  {
    hide Step;
    if |ms| > 0 {
      AlwaysInv(capacity, posters, ms[..|ms| - 1]);
      hide Inv;
      StepInv(Run(Init(capacity, posters), ms[..|ms| - 1]), ms[|ms| - 1]);
    }
  }

  /** No lost wakeup: a worker that waits, or has just seen the queue empty, never leaves queued
      work behind without a token in the semaphore or a give still to come. */
  lemma NoLostWakeup(capacity: nat, posters: nat, ms: seq<Move>)
    requires capacity > 0
    ensures var s := Run(Init(capacity, posters), ms);
      (s.worker.Waiting? || s.worker.SawEmpty?) && |s.queue.items| > 0 ==> GivePending(s)
  {
    hide Run, Init;
    AlwaysInv(capacity, posters, ms);
  }

  /** Exactly once and in order: callbacks executed, the one in progress, and those queued are the
      accepted posts; the metrics count the rejections and the deepest queue ever. */
  lemma ExactlyOnceInOrder(capacity: nat, posters: nat, ms: seq<Move>)
    requires capacity > 0
    ensures var s := Run(Init(capacity, posters), ms);
      s.accepted == s.executed + InProgress(s.worker) + s.queue.items
      && s.queue.dropped == s.rejected % U32 && |s.queue.items| <= s.queue.highWater == s.peak <= s.queue.capacity
  {
    hide Run, Init;
    AlwaysInv(capacity, posters, ms);
  }

  // ---------- progress ----------

  /** The next move of the worker left alone. */
  function Own(w: Worker): Move {
    match w
    case Waiting => Take
    case Draining => Pop
    case Running(_) => Finish
    case SawEmpty => Loop
  }

  function WorkAlone(s: State, n: nat): State
    decreases n
  {
    if n == 0 then s else WorkAlone(WorkerStep(s, Own(s.worker)), n - 1)
  }

  predicate NoGiveOwed(s: State) {
    forall p :: 0 <= p < |s.posters| ==> !s.posters[p].Owing?
  }

  /** Worker steps after which everything queued now has run. */
  function Need(s: State): nat {
    if s.worker.Running? then 2 * |s.queue.items| + 1
    else if |s.queue.items| == 0 then 0
    else if s.worker.Draining? then 2 * |s.queue.items|
    else if s.worker.Waiting? then 2 * |s.queue.items| + 1
    else 2 * |s.queue.items| + 2
  }

  lemma WorkerNeed(s: State)
    requires Inv(s) && NoGiveOwed(s)
    ensures var q := WorkerStep(s, Own(s.worker));
      Inv(q) && NoGiveOwed(q) && q.accepted == s.accepted && (Need(q) < Need(s) || Need(q) == Need(s) == 0)
  {
    WorkerInv(s, Own(s.worker));
  }

  /** Every accepted post is eventually executed: once the pending gives are done, the worker alone
      empties the queue within Need(s) of its own steps, having run all accepted callbacks. */
  lemma {:induction false} WorkerDrains(s: State, n: nat)
    requires Inv(s) && NoGiveOwed(s) && n >= Need(s)
    ensures var q := WorkAlone(s, n);
      q.queue.items == [] && !q.worker.Running? && q.executed == s.accepted && q.accepted == s.accepted
    decreases n
  {
    hide Inv, WorkerStep;
    if n == 0 {
      assert s.accepted == s.executed + InProgress(s.worker) + s.queue.items by { Logged(s); }
    } else {
      WorkerNeed(s);
      WorkerDrains(WorkerStep(s, Own(s.worker)), n - 1);
    }
  }

  lemma Logged(s: State)
    requires Inv(s)
    ensures s.accepted == s.executed + InProgress(s.worker) + s.queue.items
  {
  }

  /** In numbers: 2 * count + 2 steps of the worker alone are enough. */
  lemma DrainsWithin(s: State)
    requires Inv(s) && NoGiveOwed(s)
    ensures var q := WorkAlone(s, 2 * |s.queue.items| + 2);
      q.queue.items == [] && !q.worker.Running? && q.executed == s.accepted
  {
    WorkerDrains(s, 2 * |s.queue.items| + 2);
  }

  // ---------- what becomes of a post ----------

  /** A post of a callback, left alone between its three steps, is accepted exactly if there is room, at the end
      of the queue and with a token for the worker unless the semaphore is full; else it is only counted. A NULL
      callback is not posted. */
  lemma PostExact(s: State, p: nat, slot: Slot)
    requires Inv(s) && p < |s.posters| && s.posters[p].Free?
    ensures var e := Step(Step(Step(s, Call(p, slot)), Critical(p)), Give(p));
      if slot.cb == 0 then e == s
      else if |s.queue.items| < s.queue.capacity then
        && e.queue.items == s.queue.items + [slot] && e.accepted == s.accepted + [slot] && e.rejected == s.rejected
        && e.queue.dropped == s.queue.dropped && e.queue.highWater == Max(s.queue.highWater, |s.queue.items| + 1)
        && e.sem == (if s.sem < s.queue.capacity then s.sem + 1 else s.sem) && e.posters == s.posters && e.worker == s.worker
      else
        && e.queue == s.queue.(dropped := e.queue.dropped) && e.queue.dropped == (if s.queue.dropped == U32 - 1 then 0 else s.queue.dropped + 1)
        && e.accepted == s.accepted && e.rejected == s.rejected + 1 && e.sem == s.sem && e.posters == s.posters && e.worker == s.worker
  {
    if slot.cb != 0 {
      var c := Step(s, Call(p, slot));
      assert c == s.(posters := s.posters[p := Posting(slot)]);
      ModOnce(s.queue.dropped + 1, U32);
    }
  }

  /** In every interleaving each critical section of a poster either appends its callback to the queue and to the
      record, if there is room, or counts it as rejected. */
  lemma CriticalExact(s: State, p: nat)
    requires p < |s.posters| && s.posters[p].Posting?
    ensures var e, slot := Step(s, Critical(p)), s.posters[p].slot;
      if |s.queue.items| < s.queue.capacity then
        e.queue.items == s.queue.items + [slot] && e.accepted == s.accepted + [slot] && e.rejected == s.rejected && e.posters[p].Owing?
      else e.queue.items == s.queue.items && e.accepted == s.accepted && e.rejected == s.rejected + 1 && e.posters[p].Free?
  {
  }
}
