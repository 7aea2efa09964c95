/** The waiter ring of a mutex or semaphore, as pal_osal_host.c and pal_osal_wasm.c keep it:
    sixteen slots, a head, a tail and a count, all moved in place. */
module WaiterRing {
  import opened Arith
  import opened Seqs

  const MAX_TASKS: nat := 16

  function Pushed(q: seq<nat>, tid: nat): seq<nat> {
    if |q| < MAX_TASKS then q + [tid] else q
  }

  class Ring {
    const waiters: array<nat>
    var head: nat
    var tail: nat
    var count: nat

    predicate Valid()
      reads this
    {
      waiters.Length == MAX_TASKS && head < MAX_TASKS && count <= MAX_TASKS && tail == EndIndex(head, count, MAX_TASKS)
    }

    function Contents(): (q: seq<nat>)
      reads this, waiters
      requires Valid()
      ensures |q| == count
    {
      Wrapped(waiters[..], head, count)
    }

    constructor ()
      ensures Valid() && Contents() == [] && fresh(waiters)
    {
      waiters := new nat[MAX_TASKS](_ => 0);
      head := 0;
      tail := 0;
      count := 0;
    }

    /** A full ring drops the task silently. */
    method Push(tid: nat)
      requires Valid()
      modifies this, waiters
      ensures Valid() && Contents() == Pushed(old(Contents()), tid)
    {
      if count >= MAX_TASKS {
        return;
      }
      WrappedPush(waiters[..], head, count, tid);
      EndPush(head, count, MAX_TASKS);
      hide Wrapped, NextIndex, EndIndex, At;
      waiters[tail] := tid;
      tail := NextIndex(tail, MAX_TASKS);
      count := count + 1;
      assert waiters[..] == old(waiters[..])[old(tail) := tid];
    }

    method Pop() returns (ok: bool, tid: nat)
      requires Valid()
      modifies this
      ensures Valid() && ok == (|old(Contents())| > 0)
      ensures ok ==> [tid] + Contents() == old(Contents())
      ensures !ok ==> Contents() == []
    {
      if count == 0 {
        return false, 0;
      }
      WrappedPop(waiters[..], head, count, 0);
      EndPop(head, count, MAX_TASKS);
      ghost var before := Contents();
      hide Wrapped, NextIndex, EndIndex;
      ok, tid := true, waiters[head];
      head := NextIndex(head, MAX_TASKS);
      count := count - 1;
      assert before == [before[0]] + before[1..];
    }

    /** Compacts the ring in place over one pass; `r` entries go. */
    method Compact(tid: nat) returns (r: nat)
      requires Valid()
      modifies waiters
      ensures r <= count && |Without(old(Contents()), tid)| == count - r
      ensures forall j: nat :: j < count - r ==> waiters[At(head, MAX_TASKS, j)] == Without(old(Contents()), tid)[j]
    {
      ghost var was := Contents();
      ghost var kept: seq<nat> := [];
      var w := 0;
      r := 0;
      assert Without(was[..0], tid) == kept;
      assert Kept(waiters[..], head, kept) && Untouched(waiters[..], head, 0, was);
      hide Without, At, Contents, Wrapped, EndIndex, Kept, Untouched;
      for i := 0 to count
        invariant w + r == i && |kept| == w
        invariant Without(was[..i], tid) == kept
        invariant Kept(waiters[..], head, kept) && Untouched(waiters[..], head, i, was)
      {
        WithoutNext(was, i, tid);
        NextUntouched(waiters[..], head, i, was);
        var t := waiters[At(head, MAX_TASKS, i)];
        if t != tid {
          KeepOne(waiters[..], head, kept, i, was);
          waiters[At(head, MAX_TASKS, w)] := t;
          w := w + 1;
          kept := kept + [t];
        } else {
          r := r + 1;
        }
      }
      assert was[..count] == was;
      KeptAt(waiters[..], head, kept);
    }

    method Remove(tid: nat)
      requires Valid()
      modifies this, waiters
      ensures Valid() && Contents() == Without(old(Contents()), tid)
    {
      if count == 0 {
        return;
      }
      var r := Compact(tid);
      tail := EndIndex(head, count - r, MAX_TASKS);
      count := count - r;
    }
  }

  /** The compacted part. */
  predicate Kept(cells: seq<nat>, first: nat, kept: seq<nat>)
    requires first < |cells| == MAX_TASKS
  {
    |kept| <= MAX_TASKS && forall j: nat :: j < |kept| ==> cells[At(first, MAX_TASKS, j)] == kept[j]
  }

  /** The part still to go through. */
  predicate Untouched(cells: seq<nat>, first: nat, i: nat, was: seq<nat>)
    requires first < |cells| == MAX_TASKS
  {
    |was| <= MAX_TASKS && forall j: nat :: i <= j < |was| ==> cells[At(first, MAX_TASKS, j)] == was[j]
  }

  lemma KeptAt(cells: seq<nat>, first: nat, kept: seq<nat>)
    requires first < |cells| == MAX_TASKS && Kept(cells, first, kept)
    ensures forall j: nat :: j < |kept| ==> cells[At(first, MAX_TASKS, j)] == kept[j]
  {
  }

  lemma NextUntouched(cells: seq<nat>, first: nat, i: nat, was: seq<nat>)
    requires first < |cells| == MAX_TASKS && Untouched(cells, first, i, was) && i < |was|
    ensures |was| <= MAX_TASKS && cells[At(first, MAX_TASKS, i)] == was[i] && Untouched(cells, first, i + 1, was)
  {
  }

  lemma KeepOne(cells: seq<nat>, first: nat, kept: seq<nat>, i: nat, was: seq<nat>)
    requires first < |cells| == MAX_TASKS && |kept| <= i < |was| <= MAX_TASKS
    requires Kept(cells, first, kept) && Untouched(cells, first, i + 1, was)
    ensures var d := cells[At(first, MAX_TASKS, |kept|) := was[i]];
      Kept(d, first, kept + [was[i]]) && Untouched(d, first, i + 1, was)
  {
  }
}
