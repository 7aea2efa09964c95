/** Runs of the event queue: what is queued relates to everything that was posted, and a consumer
    blocked in pend never sleeps over a queued event. */
module EventRuns {
  import opened Status
  import opened EventQueue

  datatype Op = Post(e: Event) | Pop

  /** The queue, with a record of the events appended (in order) and popped. */
  datatype Log = Log(q: seq<Event>, appended: seq<Event>, popped: seq<Event>)

  function Apply(s: Log, capacity: nat, op: Op): Log {
    match op
    case Post(e) =>
      var (status, q) := Posted(s.q, capacity, e);
      s.(q := q, appended := if |q| > |s.q| then s.appended + [e] else s.appended)
    case Pop =>
      if |s.q| == 0 then s else s.(q := s.q[1..], popped := s.popped + [s.q[0]])
  }

  function Run(capacity: nat, ops: seq<Op>): Log {
    if |ops| == 0 then Log([], [], []) else Apply(Run(capacity, ops[..|ops| - 1]), capacity, ops[|ops| - 1])
  }

  /** An appended event later seen as b: the same one, or a distance event updated in place. */
  predicate UpdateOf(a: Event, b: Event) {
    SameSource(a, b) && (a.kind != DISTANCE_READY ==> a == b)
  }

  predicate Aligned(s: Log, capacity: nat) {
    && |s.q| <= capacity
    && |s.popped + s.q| == |s.appended|
    && forall i :: 0 <= i < |s.appended| ==> UpdateOf(s.appended[i], (s.popped + s.q)[i])
  }

  lemma ApplyAligned(s: Log, capacity: nat, op: Op)
    requires Aligned(s, capacity)
    ensures Aligned(Apply(s, capacity, op), capacity)
  {
    var n := |s.popped|;
    var t := Apply(s, capacity, op);
    match op {
      case Post(e) =>
        var r := FindSame(s.q, e, 0);
        if e.kind == DISTANCE_READY && r < |s.q| {
          forall i | 0 <= i < |t.appended| ensures UpdateOf(t.appended[i], (t.popped + t.q)[i]) {
            assert UpdateOf(s.appended[i], (s.popped + s.q)[i]);
          }
        } else if |s.q| < capacity {
          assert t.popped + t.q == (s.popped + s.q) + [e];
        }
      case Pop =>
        if |s.q| > 0 {
          assert t.popped + t.q == s.popped + s.q;
        }
    }
  }

  /** Whole events in post order, never more than the capacity: what has been delivered, followed by
      what is queued, lines up one to one with the events ever appended; only distance events may
      have been updated while they waited. */
  lemma {:induction false} DeliveredInPostOrder(capacity: nat, ops: seq<Op>)
    ensures Aligned(Run(capacity, ops), capacity)
  {
    hide Apply;
    if |ops| > 0 {
      DeliveredInPostOrder(capacity, ops[..|ops| - 1]);
      ApplyAligned(Run(capacity, ops[..|ops| - 1]), capacity, ops[|ops| - 1]);
    }
  }

  /** e is the most recent distance event posted for its device. */
  predicate IsLatest(ops: seq<Op>, e: Event) {
    if |ops| == 0 then false
    else
      var op := ops[|ops| - 1];
      if op.Post? && SameSource(op.e, e) then op.e == e else IsLatest(ops[..|ops| - 1], e)
  }

  predicate Fresh(q: seq<Event>, ops: seq<Op>) {
    && (forall i :: 0 <= i < |q| && q[i].kind == DISTANCE_READY ==> IsLatest(ops, q[i]))
    && (forall i, j :: 0 <= i < j < |q| && q[i].kind == DISTANCE_READY ==> !SameSource(q[i], q[j]))
  }

  lemma ApplyFresh(s: Log, capacity: nat, ops: seq<Op>, op: Op)
    requires Fresh(s.q, ops)
    ensures Fresh(Apply(s, capacity, op).q, ops + [op])
  {
    var all := ops + [op];
    assert all[..|ops|] == ops && all[|ops|] == op;
    var t := Apply(s, capacity, op);
    match op {
      case Post(e) =>
        var r := FindSame(s.q, e, 0);
        assert e.kind == DISTANCE_READY && r < |s.q| ==> forall j :: 0 <= j < |s.q| && j != r ==> !SameSource(s.q[j], e);
      case Pop =>
    }
  }

  /** At most one distance event per device is queued, and it carries the latest value posted for
      that device, even if posts in between were refused. */
  lemma {:induction false} OneLatestPerDevice(capacity: nat, ops: seq<Op>)
    ensures Fresh(Run(capacity, ops).q, ops)
  {
    hide Apply, Fresh;
    if |ops| == 0 {
      EmptyFresh(ops);
    } else {
      var init := ops[..|ops| - 1];
      OneLatestPerDevice(capacity, init);
      ApplyFresh(Run(capacity, init), capacity, init, ops[|ops| - 1]);
      assert init + [ops[|ops| - 1]] == ops;
    }
  }

  lemma EmptyFresh(ops: seq<Op>)
    ensures Fresh([], ops)
  {
  }

  // ---------- waking the consumer ----------

  /** The one consumer: outside pend, past a failed pop, blocked on the semaphore, or runnable again. */
  datatype Consumer = Away | PopFailed | Blocked | Runnable(timedOut: bool)

  /** `count` is the binary semaphore, `waiting` whether the consumer is in its waiter queue, and
      `owed` the gives of posters that have pushed but not yet signalled. */
  datatype Wake = Wake(q: seq<Event>, count: nat, waiting: bool, owed: nat, consumer: Consumer)

  datatype WakeMove = Push(e: Event) | Give | Pend(wait: bool) | TakeSem | TimerFires | Resume(expired: bool)

  function WakeStep(s: Wake, capacity: nat, m: WakeMove): Wake {
    match m
    case Push(e) =>
      var (status, q) := Posted(s.q, capacity, e);
      s.(q := q, owed := if |q| > |s.q| then s.owed + 1 else s.owed)
    case Give =>
      if s.owed == 0 then s
      else if s.waiting then
        s.(owed := s.owed - 1, waiting := false, consumer := if s.consumer.Blocked? then Runnable(false) else s.consumer)
      else s.(owed := s.owed - 1, count := 1)
    case Pend(wait) =>
      if !s.consumer.Away? then s
      else if |s.q| > 0 then s.(q := s.q[1..])
      else if wait then s.(consumer := PopFailed)
      else s
    case TakeSem =>
      if !s.consumer.PopFailed? then s
      else if s.count > 0 then s.(count := 0, consumer := Runnable(false))
      else s.(consumer := Blocked, waiting := true)
    case TimerFires =>
      if s.consumer.Blocked? then s.(consumer := Runnable(true)) else s
    case Resume(expired) =>
      if !s.consumer.Runnable? then s
      else if s.consumer.timedOut then s.(consumer := Away, waiting := false)
      else if |s.q| > 0 then s.(q := s.q[1..], consumer := Away)
      else s.(consumer := if expired then Away else PopFailed)
  }

  function WakeRun(capacity: nat, ms: seq<WakeMove>): Wake {
    if |ms| == 0 then Wake([], 0, false, 0, Away)
    else WakeStep(WakeRun(capacity, ms[..|ms| - 1]), capacity, ms[|ms| - 1])
  }

  predicate Awake(s: Wake) {
    && s.count <= 1
    && (s.consumer.Blocked? ==> s.waiting)
    && (s.waiting ==> s.consumer.Blocked? || s.consumer == Runnable(true))
    && (s.consumer.PopFailed? && |s.q| > 0 ==> s.count > 0 || s.owed > 0)
    && (s.consumer.Blocked? && |s.q| > 0 ==> s.owed > 0)
  }

  lemma StepAwake(s: Wake, capacity: nat, m: WakeMove)
    requires Awake(s)
    ensures Awake(WakeStep(s, capacity, m))
  {
  }

  /** In every interleaving of any posters with one consumer, a consumer blocked in pend implies
      that the queue is empty or a poster has pushed and has yet to signal. */
  lemma {:induction false} BlockedMeansEmpty(capacity: nat, ms: seq<WakeMove>)
    ensures var s := WakeRun(capacity, ms);
      Awake(s) && (s.consumer.Blocked? && s.owed == 0 ==> s.q == [])
  {
    hide WakeStep;
    if |ms| > 0 {
      BlockedMeansEmpty(capacity, ms[..|ms| - 1]);
      StepAwake(WakeRun(capacity, ms[..|ms| - 1]), capacity, ms[|ms| - 1]);
    }
  }

  /** On the cooperative simulators nothing runs between the push and the give of a post. */
  datatype WholeMove = WholePost(e: Event) | Other(m: WakeMove)

  function WholeStep(s: Wake, capacity: nat, m: WholeMove): Wake {
    match m
    case WholePost(e) => WakeStep(WakeStep(s, capacity, Push(e)), capacity, Give)
    case Other(w) => if w.Push? || w.Give? then s else WakeStep(s, capacity, w)
  }

  function WholeRun(capacity: nat, ms: seq<WholeMove>): Wake {
    if |ms| == 0 then Wake([], 0, false, 0, Away)
    else WholeStep(WholeRun(capacity, ms[..|ms| - 1]), capacity, ms[|ms| - 1])
  }

  lemma NothingOwed(s: Wake, capacity: nat, m: WholeMove)
    requires s.owed == 0
    ensures WholeStep(s, capacity, m).owed == 0
  {
  }

  /** There a consumer blocked in pend always implies that the queue is empty. */
  lemma {:induction false} BlockedAlwaysEmpty(capacity: nat, ms: seq<WholeMove>)
    ensures var s := WholeRun(capacity, ms);
      Awake(s) && s.owed == 0 && (s.consumer.Blocked? ==> s.q == [])
  {
    hide WakeStep;
    if |ms| > 0 {
      var s, m := WholeRun(capacity, ms[..|ms| - 1]), ms[|ms| - 1];
      BlockedAlwaysEmpty(capacity, ms[..|ms| - 1]);
      NothingOwed(s, capacity, m);
      hide Awake;
      match m {
        case WholePost(e) =>
          StepAwake(s, capacity, Push(e));
          StepAwake(WakeStep(s, capacity, Push(e)), capacity, Give);
        case Other(w) => StepAwake(s, capacity, w);
      }
      AwakeMeansEmpty(WholeStep(s, capacity, m));
    }
  }

  lemma AwakeMeansEmpty(s: Wake)
    requires Awake(s) && s.owed == 0
    ensures s.consumer.Blocked? ==> s.q == []
  {
  }

  // ---------- what becomes of a post ----------

  predicate Queued(q: seq<Event>, e: Event) {
    exists k: nat :: k < |q| && SameSource(q[k], e)
  }

  /** The event replaces the first queued one of its source. */
  predicate Merged(q: seq<Event>, n: seq<Event>, e: Event) {
    exists r: nat :: r < |q| && SameSource(q[r], e) && (forall j: nat :: j < r ==> !SameSource(q[j], e)) && n == q[r := e]
  }

  /** A post succeeds exactly if the queue has room or it is a distance event whose source is queued. With room
      and no such entry the event joins at the end; a refusal changes nothing. */
  lemma PostExact(q: seq<Event>, capacity: nat, e: Event)
    ensures var (status, n) := Posted(q, capacity, e);
      var merges := e.kind == DISTANCE_READY && Queued(q, e);
      && (status == Ok <==> merges || |q| < capacity)
      && (merges ==> Merged(q, n, e))
      && (!merges && |q| < capacity ==> n == q + [e])
      && (status != Ok ==> status == ResourceExhausted && n == q)
  {
    var r := FindSame(q, e, 0);
    assert r < |q| ==> SameSource(q[r], e);
    assert r == |q| ==> forall k: nat :: k < |q| ==> !SameSource(q[k], e);
  }

  /** On every run, every event posted is appended (and recorded as such), merged into the entry of its own
      source, or refused at a full queue without a trace. */
  lemma EveryPostAccounted(capacity: nat, ops: seq<Op>, i: nat)
    requires i < |ops| && ops[i].Post?
    ensures var s, t, e := Run(capacity, ops[..i]), Run(capacity, ops[..i + 1]), ops[i].e;
      var merges := e.kind == DISTANCE_READY && Queued(s.q, e);
      && (merges ==> Merged(s.q, t.q, e) && t == s.(q := t.q))
      && (!merges && |s.q| < capacity ==> t == s.(q := s.q + [e], appended := s.appended + [e]))
      && (!merges && |s.q| >= capacity ==> t == s && |s.q| == capacity)
  {
    assert ops[..i + 1][..i] == ops[..i];
    DeliveredInPostOrder(capacity, ops[..i]);
    PostExact(Run(capacity, ops[..i]).q, capacity, ops[i].e);
    hide Posted, Merged, Queued;
  }

  /** And every pop takes the oldest event, or finds the queue empty. */
  lemma EveryPopTakesOldest(capacity: nat, ops: seq<Op>, i: nat)
    requires i < |ops| && ops[i].Pop?
    ensures var s, t := Run(capacity, ops[..i]), Run(capacity, ops[..i + 1]);
      if s.q == [] then t == s
      else [s.q[0]] + t.q == s.q && t.popped == s.popped + [s.q[0]] && t.appended == s.appended
  {
    assert ops[..i + 1][..i] == ops[..i];
  }

  // ---------- delivery to the consumer ----------

  /** A consumer that asks while events are queued takes the oldest at once; otherwise, if it may wait, it goes on
      to the semaphore, where a token sends it back to look again and no token blocks it. */
  lemma PendExact(s: Wake, capacity: nat, wait: bool)
    requires s.consumer.Away?
    ensures var e := WakeStep(s, capacity, Pend(wait));
      && (|s.q| > 0 ==> e == s.(q := e.q) && [s.q[0]] + e.q == s.q)
      && (s.q == [] ==> e == if wait then s.(consumer := PopFailed) else s)
    ensures var f := WakeStep(s.(consumer := PopFailed), capacity, TakeSem);
      if s.count > 0 then f == s.(count := 0, consumer := Runnable(false)) else f == s.(consumer := Blocked, waiting := true)
  {
  }

  /** A consumer that runs again takes the oldest event, unless its wait timed out; on an empty queue it waits
      on, unless its time is up. */
  lemma ResumeExact(s: Wake, capacity: nat, expired: bool)
    requires s.consumer.Runnable?
    ensures var e := WakeStep(s, capacity, Resume(expired));
      if s.consumer.timedOut then e == s.(consumer := Away, waiting := false)
      else if |s.q| > 0 then e == s.(q := e.q, consumer := Away) && [s.q[0]] + e.q == s.q
      else e == s.(consumer := if expired then Away else PopFailed)
  {
  }

  /** A give wakes the waiting consumer, and is otherwise stored; the timer wakes a blocked consumer only to
      report its timeout. */
  lemma WakeExact(s: Wake, capacity: nat)
    requires Awake(s)
    ensures var g := WakeStep(s, capacity, Give);
      if s.owed == 0 then g == s
      else if s.consumer.Blocked? then g == s.(owed := s.owed - 1, waiting := false, consumer := Runnable(false))
      else if s.waiting then g == s.(owed := s.owed - 1, waiting := false)
      else g == s.(owed := s.owed - 1, count := 1)
    ensures WakeStep(s, capacity, TimerFires) == if s.consumer.Blocked? then s.(consumer := Runnable(true)) else s
  {
  }

  /** An event posted to a blocked consumer reaches it: push, give, and the consumer's next step. */
  lemma PostReachesConsumer(s: Wake, capacity: nat, e: Event, expired: bool)
    requires Awake(s) && s.consumer.Blocked? && s.owed == 0 && capacity > 0
    ensures var pushed := WakeStep(s, capacity, Push(e));
      var given := WakeStep(pushed, capacity, Give);
      pushed.q == [e] && given.consumer == Runnable(false) && WakeStep(given, capacity, Resume(expired)) == s.(consumer := Away, waiting := false)
  {
    PostExact(s.q, capacity, e);
    hide Posted;
  }
}
