/** Whole runs of the cooperative kernel: sixteen tasks, any number of mutexes and semaphores, and
    callers outside any task, in any order of calls, wakeups and passing time. Between context
    switches a task runs alone, so each call (or half of a call that blocks) is one step. */
module OsalRuns {
  import opened Status
  import opened Seqs
  import opened Sets
  import opened WaiterRing
  import opened Osal

  /** What a task is doing: nothing here, blocked by some other primitive, or inside a lock or take
      of object r. `deadline` is 0 when there is none; `ticket` numbers the calls that blocked. */
  datatype Call = Idle | Elsewhere | In(r: nat, deadline: nat, ticket: nat)

  /** `held`, `granted` and the counters only record the run: who was told OK and has not unlocked,
      the tickets of the waiters that releases popped, and what became of every give. */
  datatype Object =
    | MutexObject(m: Mutex, held: set<nat>, granted: seq<nat>)
    | SemObject(s: Sem, granted: seq<nat>, gives: nat, taken: nat, saturated: nat, lost: nat)

  datatype State = State(tasks: seq<Task>, calls: seq<Call>, objects: seq<Object>, now: nat, next: nat)

  datatype Move =
    | StartLock(t: nat, r: nat, ms: nat) | UnlockMove(t: nat, r: nat)
    | StartTake(t: nat, r: nat, ms: nat) | GiveMove(r: nat)
    | Continue(t: nat)
    | Sleep(t: nat, us: nat) | BlockElsewhere(t: nat, us: nat) | ResumeElsewhere(t: nat)
    | Advance(us: nat) | WakeUp

  const NEW_MUTEX := MutexObject(Mutex(NO_OWNER, []), {}, [])
  const NEW_SEM := SemObject(Sem(0, []), [], 0, 0, 0, 0)

  function Init(kinds: seq<bool>): State {
    State(seq(MAX_TASKS, _ => Task(Ready, 0, false)), seq(MAX_TASKS, _ => Idle),
          seq(|kinds|, i requires 0 <= i < |kinds| => if kinds[i] then NEW_MUTEX else NEW_SEM), 0, 0)
  }

  function Queue(x: Object): seq<nat> {
    if x.MutexObject? then x.m.waiters else x.s.waiters
  }

  // ---------- steps; a move that is not enabled changes nothing ----------

  predicate CanCall(s: State, t: nat) {
    t == NO_READY || (t < |s.tasks| == |s.calls| && s.tasks[t].phase.Ready? && s.calls[t].Idle?)
  }

  /** The task is now inside its blocking call. */
  function Entered(s: State, t: nat, r: nat, x: Object, ts: seq<Task>): State {
    if t < |s.calls| && t < |ts| && r < |s.objects| then
      s.(tasks := ts, objects := s.objects[r := x], calls := s.calls[t := In(r, ts[t].wakeup, s.next)], next := s.next + 1)
    else s
  }

  function DoLock(s: State, t: nat, r: nat, ms: nat): State
    requires r < |s.objects| && s.objects[r].MutexObject?
  {
    var x := s.objects[r];
    var (reply, m, ts) := Lock(x.m, s.tasks, t, s.now, ms);
    if reply.Blocks? then Entered(s, t, r, x.(m := m), ts)
    else s.(objects := s.objects[r := x.(m := m, held := if reply.status.Ok? then x.held + {t} else x.held)])
  }

  /** The ticket of the waiter a release is about to pop. */
  function Popped(s: State, x: Object): seq<nat> {
    var q := Queue(x);
    if |q| > 0 && q[0] < |s.calls| && s.calls[q[0]].In? then [s.calls[q[0]].ticket] else []
  }

  function DoUnlock(s: State, t: nat, r: nat): State
    requires r < |s.objects| && s.objects[r].MutexObject?
  {
    var x := s.objects[r];
    var (status, m, ts) := Unlock(x.m, s.tasks, t);
    if !status.Ok? then s
    else s.(tasks := ts, objects := s.objects[r := MutexObject(m, x.held - {t}, x.granted + Popped(s, x))])
  }

  function DoTake(s: State, t: nat, r: nat, ms: nat): State
    requires r < |s.objects| && s.objects[r].SemObject?
  {
    var x := s.objects[r];
    var (reply, sem, ts) := Take(x.s, s.tasks, t, s.now, ms);
    if reply.Blocks? then Entered(s, t, r, x.(s := sem), ts)
    else s.(objects := s.objects[r := x.(s := sem, taken := x.taken + if reply.status.Ok? then 1 else 0)])
  }

  function DoGive(s: State, r: nat): State
    requires r < |s.objects| && s.objects[r].SemObject?
  {
    var x := s.objects[r];
    var (sem, ts) := Give(x.s, s.tasks);
    var q := x.s.waiters;
    var stored := |q| == 0;
    var wasted := |q| > 0 && !(q[0] < |s.tasks| && s.tasks[q[0]].phase.Blocked?);
    s.(tasks := ts,
       objects := s.objects[r := x.(s := sem, granted := x.granted + Popped(s, x), gives := x.gives + 1,
         saturated := x.saturated + if stored then x.s.count else 0, lost := x.lost + if wasted then 1 else 0)])
  }

  /** What the second half of a blocking call returns. */
  function Verdict(s: State, t: nat): (st: Status)
    requires t < |s.tasks| == |s.calls| && s.calls[t].In? && s.calls[t].r < |s.objects|
  {
    var x := s.objects[s.calls[t].r];
    if x.MutexObject? then LockWoken(x.m, s.tasks, t).0 else TakeWoken(x.s, s.tasks, t).0
  }

  function DoContinue(s: State, t: nat): State
    requires t < |s.tasks| == |s.calls| && s.calls[t].In? && s.calls[t].r < |s.objects|
  {
    var r := s.calls[t].r;
    var x := s.objects[r];
    var ok := Verdict(s, t).Ok?;
    var y := if x.MutexObject? then x.(m := LockWoken(x.m, s.tasks, t).1, held := if ok then x.held + {t} else x.held)
             else x.(s := TakeWoken(x.s, s.tasks, t).1, taken := x.taken + if ok then 1 else 0);
    s.(calls := s.calls[t := Idle], objects := s.objects[r := y])
  }

  predicate Enabled(s: State, m: Move) {
    match m
    case StartLock(t, r, ms) => CanCall(s, t) && r < |s.objects| && s.objects[r].MutexObject?
    case UnlockMove(t, r) => CanCall(s, t) && r < |s.objects| && s.objects[r].MutexObject?
    case StartTake(t, r, ms) => CanCall(s, t) && r < |s.objects| && s.objects[r].SemObject?
    case GiveMove(r) => r < |s.objects| && s.objects[r].SemObject?
    case Continue(t) =>
      t < |s.tasks| == |s.calls| && s.tasks[t].phase.Ready? && !s.calls[t].Idle? && (s.calls[t].In? ==> s.calls[t].r < |s.objects|)
    case Sleep(t, us) => CanCall(s, t) && t != NO_READY
    case BlockElsewhere(t, us) => CanCall(s, t) && t != NO_READY
    case ResumeElsewhere(t) => t < |s.calls| && s.calls[t].Elsewhere?
    case Advance(us) => true
    case WakeUp => true
  }

  function Step(s: State, m: Move): State {
    if !Enabled(s, m) then s
    else match m
      case StartLock(t, r, ms) => DoLock(s, t, r, ms)
      case UnlockMove(t, r) => DoUnlock(s, t, r)
      case StartTake(t, r, ms) => DoTake(s, t, r, ms)
      case GiveMove(r) => DoGive(s, r)
      case Continue(t) => if s.calls[t].In? then DoContinue(s, t) else s.(calls := s.calls[t := Idle])
      case Sleep(t, us) => s.(tasks := YieldTimed(s.tasks, t, s.now, us))
      case BlockElsewhere(t, us) => s.(tasks := Block(s.tasks, t, s.now, us), calls := s.calls[t := Elsewhere])
      case ResumeElsewhere(t) => s.(tasks := Resume(s.tasks, t))
      case Advance(us) => s.(now := s.now + us)
      case WakeUp => s.(tasks := WakeByTime(s.tasks, s.now))
  }

  function Run(s: State, ms: seq<Move>): State {
    if |ms| == 0 then s else Step(Run(s, ms[..|ms| - 1]), ms[|ms| - 1])
  }

  /** A release has chosen task t, still inside its call on r: that call will return OK. */
  predicate Granted(s: State, r: nat, t: nat) {
    t < |s.tasks| == |s.calls| && s.calls[t].In? && s.calls[t].r == r && s.tasks[t].phase.Ready? && !s.tasks[t].fired
  }

  // ---------- the invariant ----------

  /** A call that blocked: blocked tasks are queued; a task woken early has passed its deadline;
      a task woken by a release has left the queue and, for a mutex, owns it. */
  predicate CallSound(task: Task, t: nat, c: Call, objects: seq<Object>, now: nat, next: nat) {
    match c
    case Idle => !task.phase.Blocked?
    case Elsewhere => !task.phase.Waiting?
    case In(r, deadline, ticket) =>
      && r < |objects| && ticket < next && !task.phase.Waiting?
      && (task.phase.Blocked? ==> !task.fired && task.wakeup == deadline && t in Queue(objects[r]))
      && (task.phase.Ready? && task.fired ==> 0 < deadline <= now)
      && (task.phase.Ready? && !task.fired ==>
            t !in Queue(objects[r]) && (objects[r].MutexObject? ==> objects[r].m.owner == t))
  }

  /** Everyone queued at r is inside a call on r, blocked or timed out. */
  predicate Member(s: State, r: nat, t: nat) {
    t < |s.tasks| == |s.calls| && s.calls[t].In? && s.calls[t].r == r && (s.tasks[t].phase.Blocked? || s.tasks[t].fired)
  }

  predicate Members(s: State, r: nat, q: seq<nat>) {
    forall i :: 0 <= i < |q| ==> Member(s, r, q[i])
  }

  function Ticket(c: Call): nat {
    if c.In? then c.ticket else 0
  }

  /** The queue and the waiters already popped are in the order in which the calls blocked. */
  predicate InOrder(calls: seq<Call>, q: seq<nat>, granted: seq<nat>, next: nat) {
    && (forall i :: 0 <= i < |q| ==> q[i] < |calls|)
    && (forall i, j :: 0 <= i < j < |q| ==> Ticket(calls[q[i]]) < Ticket(calls[q[j]]))
    && (forall i, j :: 0 <= i < j < |granted| ==> granted[i] < granted[j])
    && (forall i :: 0 <= i < |granted| ==> granted[i] < next)
    && (forall i, j :: 0 <= i < |granted| && 0 <= j < |q| ==> granted[i] < Ticket(calls[q[j]]))
  }

  predicate OwnerSound(x: Object) {
    if x.MutexObject? then
      && (x.m.owner == NO_OWNER ==> x.m.waiters == [])
      && x.m.owner !in x.m.waiters
      && (x.m.owner == NO_OWNER || x.m.owner == NO_READY || x.m.owner < MAX_TASKS)
      && (forall h :: h in x.held ==> h == x.m.owner != NO_OWNER)
    else
      x.s.count <= 1 && (x.s.waiters != [] ==> x.s.count == 0)
  }

  predicate TasksSound(s: State) {
    && |s.tasks| == |s.calls| == MAX_TASKS
    && forall t :: 0 <= t < MAX_TASKS ==> CallSound(s.tasks[t], t, s.calls[t], s.objects, s.now, s.next)
  }

  predicate ObjectSound(s: State, r: nat)
    requires r < |s.objects|
  {
    var x := s.objects[r];
    Members(s, r, Queue(x)) && InOrder(s.calls, Queue(x), x.granted, s.next) && OwnerSound(x)
  }

  predicate Inv(s: State) {
    TasksSound(s) && forall r :: 0 <= r < |s.objects| ==> ObjectSound(s, r)
  }

  // ---------- every step keeps it ----------

  /** Distinct task ids that miss one are fewer than sixteen: the waiter ring never overflows. */
  lemma RoomFor(q: seq<nat>, t: nat, n: nat)
    requires t < n && t !in q && forall i :: 0 <= i < |q| ==> q[i] < n
    requires forall i, j :: 0 <= i < j < |q| ==> q[i] != q[j]
    ensures |q| < n
  {
    Smaller(Ids(q), Below(n) - {t});
  }

  /** What a step must leave alone for the tasks it does not move. */
  predicate SameElsewhere(s: State, e: State, r: nat, t: nat) {
    && |e.tasks| == |s.tasks| == |e.calls| == |s.calls| == MAX_TASKS && |e.objects| == |s.objects| && r < |s.objects|
    && s.now <= e.now && s.next <= e.next
    && (forall k :: 0 <= k < MAX_TASKS && k != t ==> e.tasks[k] == s.tasks[k] && e.calls[k] == s.calls[k])
    && (forall k :: 0 <= k < |s.objects| && k != r ==> e.objects[k] == s.objects[k])
    && e.objects[r].MutexObject? == s.objects[r].MutexObject?
  }

  /** A step on object r that moves at most task t, a caller of nothing else, cannot disturb the other objects. */
  lemma OtherObject(s: State, e: State, r: nat, t: nat, k: nat)
    requires Inv(s) && SameElsewhere(s, e, r, t) && k < |s.objects| && k != r
    requires t < MAX_TASKS ==> !s.calls[t].In? || s.calls[t].r == r
    ensures ObjectSound(e, k)
  {
    assert ObjectSound(s, k);
    var q := Queue(s.objects[k]);
    forall i | 0 <= i < |q| ensures q[i] != t && Member(e, k, q[i]) {
      assert Member(s, k, q[i]);
    }
  }

  /** Nor the other tasks, as long as they stay queued at r and the owner stays. */
  lemma OtherCall(s: State, e: State, r: nat, t: nat, k: nat)
    requires Inv(s) && SameElsewhere(s, e, r, t) && k < MAX_TASKS && k != t
    requires s.calls[k].In? && s.calls[k].r == r ==>
      (k in Queue(s.objects[r]) <==> k in Queue(e.objects[r]))
      && (e.objects[r].MutexObject? && Granted(s, r, k) ==> e.objects[r].m.owner == s.objects[r].m.owner)
    ensures CallSound(e.tasks[k], k, e.calls[k], e.objects, e.now, e.next)
  {
    assert CallSound(s.tasks[k], k, s.calls[k], s.objects, s.now, s.next);
  }

  lemma Assemble(s: State, e: State, r: nat, t: nat)
    requires Inv(s) && SameElsewhere(s, e, r, t)
    requires t < MAX_TASKS ==> !s.calls[t].In? || s.calls[t].r == r
    requires t < MAX_TASKS ==> CallSound(e.tasks[t], t, e.calls[t], e.objects, e.now, e.next)
    requires forall k :: 0 <= k < MAX_TASKS && k != t && s.calls[k].In? && s.calls[k].r == r ==>
      (k in Queue(s.objects[r]) <==> k in Queue(e.objects[r]))
    requires forall k :: 0 <= k < MAX_TASKS && k != t && Granted(s, r, k) && s.objects[r].MutexObject? ==>
      e.objects[r].m.owner == s.objects[r].m.owner
    requires ObjectSound(e, r)
    ensures Inv(e)
  {
    forall k: nat | k < |e.objects| ensures ObjectSound(e, k) {
      if k != r {
        OtherObject(s, e, r, t, k);
      }
    }
    hide ObjectSound, CallSound;
    forall k: nat | k < MAX_TASKS ensures CallSound(e.tasks[k], k, e.calls[k], e.objects, e.now, e.next) {
      if k != t {
        OtherCall(s, e, r, t, k);
      }
    }
  }

  /** Whoever is queued at r is a task inside a call on r, with a ticket already given out. */
  predicate Waiter(s: State, r: nat, t: nat) {
    t < MAX_TASKS && Member(s, r, t) && Ticket(s.calls[t]) < s.next
  }

  lemma QueuedWaiter(s: State, r: nat, i: nat)
    requires Inv(s) && r < |s.objects| && i < |Queue(s.objects[r])|
    ensures Waiter(s, r, Queue(s.objects[r])[i])
  {
    var t := Queue(s.objects[r])[i];
    assert ObjectSound(s, r);
    assert Member(s, r, t);
    assert CallSound(s.tasks[t], t, s.calls[t], s.objects, s.now, s.next);
  }

  lemma AllWaiters(s: State, r: nat)
    requires Inv(s) && r < |s.objects|
    ensures var q := Queue(s.objects[r]);
      forall i :: 0 <= i < |q| ==> Waiter(s, r, q[i])
  {
    hide Inv, Waiter, Queue;
    var q := Queue(s.objects[r]);
    forall i: nat | i < |q| ensures Waiter(s, r, q[i]) {
      QueuedWaiter(s, r, i);
    }
  }

  lemma InOrderDistinct(calls: seq<Call>, q: seq<nat>, granted: seq<nat>, next: nat)
    requires InOrder(calls, q, granted, next)
    ensures forall i, j :: 0 <= i < j < |q| ==> q[i] != q[j]
  {
  }

  /** A newcomer with the next ticket goes to the end. */
  lemma AppendInOrder(calls: seq<Call>, later: seq<Call>, q: seq<nat>, granted: seq<nat>, t: nat, next: nat, after: nat)
    requires InOrder(calls, q, granted, next) && next < after && |later| == |calls| && t < |later|
    requires forall i :: 0 <= i < |q| ==> Ticket(later[q[i]]) == Ticket(calls[q[i]]) < next
    requires Ticket(later[t]) == next
    ensures InOrder(later, q + [t], granted, after)
  {
  }

  /** The first waiter's ticket joins the ones already popped. */
  lemma PopInOrder(calls: seq<Call>, q: seq<nat>, granted: seq<nat>, next: nat)
    requires InOrder(calls, q, granted, next) && |q| > 0 && Ticket(calls[q[0]]) < next
    ensures InOrder(calls, q[1..], granted + [Ticket(calls[q[0]])], next)
  {
    hide Ticket;
    var rest, more := q[1..], granted + [Ticket(calls[q[0]])];
    forall j | 0 <= j < |rest| ensures rest[j] == q[j + 1] && Ticket(calls[q[0]]) < Ticket(calls[q[j + 1]]) {
    }
  }

  /** Taking one waiter out of the queue keeps the order. */
  lemma DropInOrder(calls: seq<Call>, q: seq<nat>, granted: seq<nat>, t: nat, next: nat)
    requires InOrder(calls, q, granted, next) && t < |calls|
    ensures InOrder(calls[t := Idle], Without(q, t), granted, next)
  {
    hide Ticket;
    var p, later := Without(q, t), calls[t := Idle];
    var rank := seq(|calls|, i requires 0 <= i < |calls| => Ticket(calls[i]));
    WithoutMembers(q, t);
    WithoutKeepsOrder(q, t, rank);
    hide Without;
    forall i | 0 <= i < |p|
      ensures p[i] < |calls| && Ticket(later[p[i]]) == rank[p[i]] && forall k :: 0 <= k < |granted| ==> granted[k] < rank[p[i]] {
      assert p[i] in p;
      var j :| 0 <= j < |q| && q[j] == p[i];
      assert later[p[i]] == calls[p[i]];
    }
  }

  lemma EnteredMembers(s: State, e: State, r: nat, t: nat, q: seq<nat>)
    requires SameElsewhere(s, e, r, t) && t < MAX_TASKS && !s.calls[t].In?
    requires Member(e, r, t) && forall i :: 0 <= i < |q| ==> Waiter(s, r, q[i])
    ensures |s.calls| == |e.calls| == MAX_TASKS && Members(e, r, q + [t])
    ensures forall i :: 0 <= i < |q| ==> q[i] != t && q[i] < MAX_TASKS && e.calls[q[i]] == s.calls[q[i]] && Ticket(s.calls[q[i]]) < s.next
  {
    hide Ticket;
    forall i: nat | i < |q|
      ensures q[i] != t && q[i] < MAX_TASKS && Member(e, r, q[i]) && e.calls[q[i]] == s.calls[q[i]] && Ticket(s.calls[q[i]]) < s.next {
      assert Waiter(s, r, q[i]);
    }
  }

  lemma EnteredObject(s: State, e: State, t: nat, r: nat)
    requires Inv(s) && SameElsewhere(s, e, r, t) && t < MAX_TASKS && s.calls[t].Idle?
    requires e.calls[t].In? && e.calls[t].r == r && e.calls[t].ticket == s.next < e.next && e.tasks[t].phase.Blocked?
    requires e.objects[r].granted == s.objects[r].granted && OwnerSound(e.objects[r])
    requires Queue(e.objects[r]) == Pushed(Queue(s.objects[r]), t)
    ensures ObjectSound(e, r) && Queue(e.objects[r]) == Queue(s.objects[r]) + [t]
  {
    var q := Queue(s.objects[r]);
    assert ObjectSound(s, r);
    AllWaiters(s, r);
    hide OwnerSound, InOrder, Members, Waiter, CallSound, Inv, Queue, SameElsewhere;
    EnteredMembers(s, e, r, t, q);
    EnteredOrder(s, e, t, q, s.objects[r].granted);
  }

  lemma EnteredOrder(s: State, e: State, t: nat, q: seq<nat>, granted: seq<nat>)
    requires |s.calls| == |e.calls| == MAX_TASKS && t < MAX_TASKS && InOrder(s.calls, q, granted, s.next)
    requires Ticket(e.calls[t]) == s.next < e.next
    requires forall i :: 0 <= i < |q| ==> q[i] != t && q[i] < MAX_TASKS && e.calls[q[i]] == s.calls[q[i]] && Ticket(s.calls[q[i]]) < s.next
    ensures |q| < MAX_TASKS && InOrder(e.calls, q + [t], granted, e.next)
  {
    InOrderDistinct(s.calls, q, granted, s.next);
    hide Ticket, InOrder;
    RoomFor(q, t, MAX_TASKS);
    AppendInOrder(s.calls, e.calls, q, granted, t, s.next, e.next);
  }

  lemma EnteredInv(s: State, t: nat, r: nat, x: Object, ms: nat)
    requires Inv(s) && t < MAX_TASKS && s.tasks[t].phase.Ready? && s.calls[t].Idle? && r < |s.objects|
    requires x.MutexObject? == s.objects[r].MutexObject? && x.granted == s.objects[r].granted
    requires Queue(x) == Pushed(Queue(s.objects[r]), t) && OwnerSound(x)
    requires x.MutexObject? ==> x.m.owner == s.objects[r].m.owner
    ensures Inv(Entered(s, t, r, x, Block(s.tasks, t, s.now, TimeoutUs(ms))))
  {
    var e := Entered(s, t, r, x, Block(s.tasks, t, s.now, TimeoutUs(ms)));
    EnteredObject(s, e, t, r);
    hide ObjectSound, OwnerSound;
    Assemble(s, e, r, t);
  }

  lemma LockInv(s: State, t: nat, r: nat, ms: nat)
    requires Inv(s) && Enabled(s, StartLock(t, r, ms))
    ensures Inv(DoLock(s, t, r, ms))
  {
    var x := s.objects[r];
    var (reply, m, ts) := Lock(x.m, s.tasks, t, s.now, ms);
    var e := DoLock(s, t, r, ms);
    assert ObjectSound(s, r);
    if reply.Blocks? {
      EnteredInv(s, t, r, x.(m := m), ms);
    } else {
      NoneGranted(s, r);
      assert ObjectSound(e, r);
      hide ObjectSound;
      Assemble(s, e, r, NO_READY);
    }
  }

  /** A free mutex has not been handed to anyone. */
  lemma NoneGranted(s: State, r: nat)
    requires Inv(s) && r < |s.objects| && s.objects[r].MutexObject?
    ensures forall k :: 0 <= k < MAX_TASKS && Granted(s, r, k) ==> k == s.objects[r].m.owner
  {
    forall k: nat | k < MAX_TASKS && Granted(s, r, k) ensures k == s.objects[r].m.owner {
      assert CallSound(s.tasks[k], k, s.calls[k], s.objects, s.now, s.next);
    }
  }

  lemma TakeInv(s: State, t: nat, r: nat, ms: nat)
    requires Inv(s) && Enabled(s, StartTake(t, r, ms))
    ensures Inv(DoTake(s, t, r, ms))
  {
    var x := s.objects[r];
    var (reply, sem, ts) := Take(x.s, s.tasks, t, s.now, ms);
    var e := DoTake(s, t, r, ms);
    assert ObjectSound(s, r);
    if reply.Blocks? {
      EnteredInv(s, t, r, x.(s := sem), ms);
    } else {
      assert ObjectSound(e, r);
      hide ObjectSound;
      Assemble(s, e, r, NO_READY);
    }
  }

  /** A release pops the first waiter and resumes it. */
  lemma HandOverInv(s: State, e: State, r: nat)
    requires Inv(s) && r < |s.objects| == |e.objects| && |Queue(s.objects[r])| > 0
    requires e.now == s.now && e.next == s.next && e.calls == s.calls
    requires e.tasks == Resume(s.tasks, Queue(s.objects[r])[0])
    requires e.objects == s.objects[r := e.objects[r]] && e.objects[r].MutexObject? == s.objects[r].MutexObject?
    requires Queue(e.objects[r]) == Queue(s.objects[r])[1..]
    requires e.objects[r].granted == s.objects[r].granted + Popped(s, s.objects[r])
    requires OwnerSound(e.objects[r])
    requires s.objects[r].MutexObject? ==> e.objects[r].m.owner == Queue(s.objects[r])[0]
    requires s.objects[r].MutexObject? ==> forall k :: 0 <= k < MAX_TASKS ==> !Granted(s, r, k)
    ensures Inv(e)
  {
    var q := Queue(s.objects[r]);
    var w := q[0];
    assert ObjectSound(s, r);
    assert Member(s, r, w);
    assert CallSound(s.tasks[w], w, s.calls[w], s.objects, s.now, s.next);
    assert w !in q[1..];
    HandOverObject(s, e, r);
    hide ObjectSound, OwnerSound;
    Assemble(s, e, r, w);
  }

  lemma HandOverMembers(s: State, e: State, r: nat, q: seq<nat>)
    requires |q| > 0 && e.calls == s.calls && e.tasks == Resume(s.tasks, q[0])
    requires forall i :: 0 <= i < |q| ==> Waiter(s, r, q[i])
    requires forall i, j :: 0 <= i < j < |q| ==> q[i] != q[j]
    ensures Members(e, r, q[1..])
  {
    forall i: nat | i < |q| - 1 ensures Member(e, r, q[1..][i]) {
      assert Waiter(s, r, q[i + 1]) && q[i + 1] != q[0];
    }
  }

  lemma PopsTicket(s: State, x: Object, r: nat)
    requires |Queue(x)| > 0 && Waiter(s, r, Queue(x)[0])
    ensures Popped(s, x) == [Ticket(s.calls[Queue(x)[0]])] && Ticket(s.calls[Queue(x)[0]]) < s.next
  {
  }

  lemma HandOverObject(s: State, e: State, r: nat)
    requires Inv(s) && r < |s.objects| == |e.objects| && |Queue(s.objects[r])| > 0
    requires e.next == s.next && e.calls == s.calls && e.tasks == Resume(s.tasks, Queue(s.objects[r])[0])
    requires Queue(e.objects[r]) == Queue(s.objects[r])[1..]
    requires e.objects[r].granted == s.objects[r].granted + Popped(s, s.objects[r])
    requires OwnerSound(e.objects[r])
    ensures ObjectSound(e, r)
  {
    var q, granted := Queue(s.objects[r]), s.objects[r].granted;
    assert ObjectSound(s, r);
    AllWaiters(s, r);
    assert Waiter(s, r, q[0]);
    hide OwnerSound, InOrder, Members, Waiter, CallSound, Inv, Queue, Popped, Ticket, Resume;
    PopsTicket(s, s.objects[r], r);
    InOrderDistinct(s.calls, q, granted, s.next);
    HandOverMembers(s, e, r, q);
    PopInOrder(s.calls, q, granted, s.next);
  }

  lemma UnlockInv(s: State, t: nat, r: nat)
    requires Inv(s) && Enabled(s, UnlockMove(t, r))
    ensures Inv(DoUnlock(s, t, r))
  {
    var x := s.objects[r];
    var e := DoUnlock(s, t, r);
    assert ObjectSound(s, r);
    if x.m.owner == t && t != NO_OWNER {
      NoneGranted(s, r);
      if |x.m.waiters| > 0 {
        HandOverInv(s, e, r);
      } else {
        assert ObjectSound(e, r);
        hide ObjectSound;
        Assemble(s, e, r, NO_READY);
      }
    }
  }

  lemma GiveInv(s: State, r: nat)
    requires Inv(s) && Enabled(s, GiveMove(r))
    ensures Inv(DoGive(s, r))
  {
    var x := s.objects[r];
    var e := DoGive(s, r);
    assert ObjectSound(s, r);
    if |x.s.waiters| > 0 {
      HandOverInv(s, e, r);
    } else {
      assert ObjectSound(e, r);
      hide ObjectSound;
      Assemble(s, e, r, NO_READY);
    }
  }

  /** A task that leaves its call, with its queue entry if it still has one. */
  lemma LeftInv(s: State, e: State, t: nat, r: nat)
    requires Inv(s) && t < MAX_TASKS && s.calls[t].In? && s.calls[t].r == r < |s.objects| == |e.objects| && s.tasks[t].phase.Ready?
    requires e.now == s.now && e.next == s.next && e.tasks == s.tasks && e.calls == s.calls[t := Idle]
    requires e.objects == s.objects[r := e.objects[r]] && e.objects[r].MutexObject? == s.objects[r].MutexObject?
    requires Queue(e.objects[r]) == Without(Queue(s.objects[r]), t) && e.objects[r].granted == s.objects[r].granted
    requires s.objects[r].MutexObject? ==> e.objects[r].m.owner == s.objects[r].m.owner
    requires OwnerSound(e.objects[r])
    ensures Inv(e)
  {
    var q := Queue(s.objects[r]);
    WithoutMembers(q, t);
    LeftObject(s, e, t, r);
    hide ObjectSound, OwnerSound;
    Assemble(s, e, r, t);
  }

  lemma LeftMembers(s: State, e: State, r: nat, t: nat, q: seq<nat>)
    requires e.tasks == s.tasks && t < |s.calls| && e.calls == s.calls[t := Idle]
    requires forall i :: 0 <= i < |q| ==> Waiter(s, r, q[i])
    ensures Members(e, r, Without(q, t))
  {
    WithoutMembers(q, t);
    hide Without, Ticket;
    var p := Without(q, t);
    forall i: nat | i < |p| ensures Member(e, r, p[i]) {
      assert p[i] in p;
      var j :| 0 <= j < |q| && q[j] == p[i];
      assert Waiter(s, r, q[j]);
    }
  }

  lemma LeftObject(s: State, e: State, t: nat, r: nat)
    requires Inv(s) && t < MAX_TASKS && r < |s.objects| == |e.objects|
    requires e.next == s.next && e.tasks == s.tasks && e.calls == s.calls[t := Idle]
    requires Queue(e.objects[r]) == Without(Queue(s.objects[r]), t) && e.objects[r].granted == s.objects[r].granted
    requires OwnerSound(e.objects[r])
    ensures ObjectSound(e, r)
  {
    var q, granted := Queue(s.objects[r]), s.objects[r].granted;
    assert ObjectSound(s, r);
    AllWaiters(s, r);
    hide OwnerSound, InOrder, Members, Waiter, CallSound, Queue, Without;
    LeftMembers(s, e, r, t, q);
    DropInOrder(s.calls, q, granted, t, s.next);
  }

  lemma LeavesQueue(s: State, t: nat)
    requires Inv(s) && Enabled(s, Continue(t)) && s.calls[t].In?
    ensures var r := s.calls[t].r;
      Queue(DoContinue(s, t).objects[r]) == Without(Queue(s.objects[r]), t)
  {
    var q := Queue(s.objects[s.calls[t].r]);
    assert CallSound(s.tasks[t], t, s.calls[t], s.objects, s.now, s.next);
    hide CallSound, Inv;
    if t !in q {
      WithoutAbsent(q, t);
    }
  }

  lemma LeavesOwner(s: State, t: nat)
    requires Inv(s) && Enabled(s, Continue(t)) && s.calls[t].In?
    ensures OwnerSound(DoContinue(s, t).objects[s.calls[t].r])
  {
    var r := s.calls[t].r;
    assert ObjectSound(s, r);
    assert CallSound(s.tasks[t], t, s.calls[t], s.objects, s.now, s.next);
    WithoutMembers(Queue(s.objects[r]), t);
    hide Inv, ObjectSound, CallSound;
    assert OwnerSound(s.objects[r]);
  }

  lemma ContinueInv(s: State, t: nat)
    requires Inv(s) && Enabled(s, Continue(t)) && s.calls[t].In?
    ensures Inv(DoContinue(s, t))
  {
    LeavesQueue(s, t);
    LeavesOwner(s, t);
    hide Inv, OwnerSound;
    LeftInv(s, DoContinue(s, t), t, s.calls[t].r);
  }

  /** Moves of a task that is in no call here. */
  lemma TaskInv(s: State, e: State, t: nat)
    requires |e.tasks| == |e.calls| == MAX_TASKS
    requires Inv(s) && t < MAX_TASKS && !s.calls[t].In? && !e.calls[t].In? && e.objects == s.objects
    requires e.now == s.now && e.next == s.next && e.calls == s.calls[t := e.calls[t]]
    requires e.tasks == s.tasks[t := e.tasks[t]] && CallSound(e.tasks[t], t, e.calls[t], e.objects, e.now, e.next)
    ensures Inv(e)
  {
    forall k: nat | k < MAX_TASKS ensures CallSound(e.tasks[k], k, e.calls[k], e.objects, e.now, e.next) {
      assert CallSound(s.tasks[k], k, s.calls[k], s.objects, s.now, s.next);
    }
    forall r: nat | r < |s.objects| ensures ObjectSound(e, r) {
      assert ObjectSound(s, r);
      var q := Queue(s.objects[r]);
      forall i | 0 <= i < |q| ensures Member(e, r, q[i]) {
        assert Member(s, r, q[i]);
      }
    }
  }

  lemma ClockInv(s: State, e: State)
    requires Inv(s) && e.objects == s.objects && e.calls == s.calls && e.next == s.next
    requires (e.tasks == s.tasks && s.now <= e.now) || (e.tasks == WakeByTime(s.tasks, s.now) && s.now == e.now)
    ensures Inv(e)
  {
    forall k: nat | k < MAX_TASKS ensures CallSound(e.tasks[k], k, e.calls[k], e.objects, e.now, e.next) {
      assert CallSound(s.tasks[k], k, s.calls[k], s.objects, s.now, s.next);
    }
    forall r: nat | r < |s.objects| ensures ObjectSound(e, r) {
      assert ObjectSound(s, r);
      var q := Queue(s.objects[r]);
      forall i | 0 <= i < |q| ensures Member(e, r, q[i]) {
        assert Member(s, r, q[i]);
      }
    }
  }

  lemma StepInv(s: State, m: Move)
    requires Inv(s)
    ensures Inv(Step(s, m)) && |Step(s, m).objects| == |s.objects|
  {
    if Enabled(s, m) {
      match m {
        case StartLock(t, r, ms) => LockInv(s, t, r, ms);
        case UnlockMove(t, r) => UnlockInv(s, t, r);
        case StartTake(t, r, ms) => TakeInv(s, t, r, ms);
        case GiveMove(r) => GiveInv(s, r);
        case Continue(t) =>
          if s.calls[t].In? {
            ContinueInv(s, t);
          } else {
            assert CallSound(s.tasks[t], t, s.calls[t], s.objects, s.now, s.next);
            TaskInv(s, Step(s, m), t);
          }
        case Sleep(t, us) => TaskInv(s, Step(s, m), t);
        case BlockElsewhere(t, us) => TaskInv(s, Step(s, m), t);
        case ResumeElsewhere(t) =>
          assert CallSound(s.tasks[t], t, s.calls[t], s.objects, s.now, s.next);
          TaskInv(s, Step(s, m), t);
        case Advance(us) => ClockInv(s, Step(s, m));
        case WakeUp => ClockInv(s, Step(s, m));
      }
    }
  }

  lemma {:induction false} AlwaysInv(kinds: seq<bool>, ms: seq<Move>)
    ensures Inv(Run(Init(kinds), ms)) && |Run(Init(kinds), ms).objects| == |kinds|
  {
    hide Step;
    if |ms| > 0 {
      AlwaysInv(kinds, ms[..|ms| - 1]);
      hide Inv;
      StepInv(Run(Init(kinds), ms[..|ms| - 1]), ms[|ms| - 1]);
    }
  }
}
