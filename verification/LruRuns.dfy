/** Whole runs of the I2C device cache: it holds the most recently used addresses, and only live handles. */
module LruRuns {
  import opened Status
  import opened Seqs
  import opened Lru

  datatype Request = Request(addr: nat, add: AddResult, removed: bool)

  /** `used` and `leaked` only record the run: the addresses served with OK, and the handles of
      evicted devices that the bus driver would not take back. */
  datatype World = World(slots: seq<Entry>, live: set<nat>, used: seq<nat>, leaked: set<nat>)

  const START := World([EMPTY_ENTRY, EMPTY_ENTRY, EMPTY_ENTRY, EMPTY_ENTRY], {}, [], {})

  predicate Evicts(slots: seq<Entry>, q: Request) {
    Find(slots, q.addr) == Find(slots, 0) == |slots| && q.add.Added?
  }

  function Serve(w: World, q: Request): World
    requires |w.slots| == MAX_DEVICES
  {
    var o := Access(w.slots, w.live, q.addr, q.add, q.removed);
    World(o.slots, o.live, if o.status.Ok? then w.used + [q.addr] else w.used,
          if Evicts(w.slots, q) && !q.removed then w.leaked + {w.slots[0].handle} else w.leaked)
  }

  /** What is asked of callers and of the bus driver: no general call address, and handles that are new. */
  predicate Fair(w: World, q: Request) {
    q.addr != 0 && (q.add.Added? ==> q.add.handle != 0 && q.add.handle !in w.live)
  }

  function Run(w: World, qs: seq<Request>): (e: World)
    requires |w.slots| == MAX_DEVICES
    ensures |e.slots| == MAX_DEVICES
  {
    if |qs| == 0 then w else Serve(Run(w, qs[..|qs| - 1]), qs[|qs| - 1])
  }

  predicate AllFair(qs: seq<Request>) {
    forall i :: 0 <= i < |qs| ==> Fair(Run(START, qs[..i]), qs[i])
  }

  // ---------- what least recently used means ----------

  /** The distinct addresses of a history, by their last use. */
  function Recency(used: seq<nat>): (r: seq<nat>)
    ensures Distinct(r)
  {
    if |used| == 0 then [] else
      var p := Recency(used[..|used| - 1]);
      var a := used[|used| - 1];
      WithoutMembers(p, a);
      WithoutDistinct(p, a);
      assert a !in Without(p, a);
      Without(p, a) + [a]
  }

  /** The most recent ones, as many as the cache holds. */
  function Latest(r: seq<nat>): seq<nat> {
    if |r| <= MAX_DEVICES then r else r[|r| - MAX_DEVICES..]
  }

  function Addrs(es: seq<Entry>): seq<nat> {
    seq(|es|, i requires 0 <= i < |es| => es[i].addr)
  }

  function Handles(es: seq<Entry>): set<nat> {
    set e | e in es :: e.handle
  }

  predicate Inv(w: World) {
    && Prefix(w.slots)
    && Addrs(Entries(w.slots)) == Latest(Recency(w.used))
    && HandlesSound(Entries(w.slots), w.live, w.leaked)
  }

  /** Listed handles are different from each other, and with the leaked ones are all that is live. */
  predicate HandlesSound(es: seq<Entry>, live: set<nat>, leaked: set<nat>) {
    && (forall i, j :: 0 <= i < j < |es| ==> es[i].handle != es[j].handle)
    && live == Handles(es) + leaked && Handles(es) !! leaked
  }

  // ---------- one access ----------

  lemma LatestSplit(p: seq<nat>, l: seq<nat>)
    requires |l| <= MAX_DEVICES && (|l| < MAX_DEVICES ==> p == [])
    ensures Latest(p + l) == l
  {
  }

  lemma LatestTail(r: seq<nat>)
    ensures var l := Latest(r);
      |l| <= MAX_DEVICES && |l| <= |r| && r == r[..|r| - |l|] + l && (|l| < MAX_DEVICES ==> l == r)
  {
  }

  /** Taking out an entry of the back part of a list. */
  lemma WithoutInBack(p: seq<nat>, l: seq<nat>, k: nat)
    requires Distinct(p + l) && k < |l|
    ensures Without(p + l, l[k]) == p + (l[..k] + l[k + 1..])
  {
    hide Without;
    assert l[k] !in p by { BackNotInFront(p, l, k); }
    assert Distinct(l) by { BackDistinct(p, l); }
    hide Distinct;
    WithoutAbsent(p, l[k]);
    WithoutOne(l, k);
    WithoutConcat(p, l, l[k]);
  }

  lemma BackNotInFront(p: seq<nat>, l: seq<nat>, k: nat)
    requires Distinct(p + l) && k < |l|
    ensures l[k] !in p
  {
    forall i | 0 <= i < |p| ensures p[i] != l[k] {
      assert (p + l)[i] != (p + l)[|p| + k];
    }
  }

  lemma BackDistinct(p: seq<nat>, l: seq<nat>)
    requires Distinct(p + l)
    ensures Distinct(l)
  {
    forall i, j | 0 <= i < j < |l| ensures l[i] != l[j] {
      assert (p + l)[|p| + i] != (p + l)[|p| + j];
    }
  }

  lemma LatestHit(r: seq<nat>, k: nat)
    requires k < |Latest(r)| && Distinct(r)
    ensures var l := Latest(r);
      Latest(Without(r, l[k]) + [l[k]]) == l[..k] + l[k + 1..] + [l[k]]
  {
    LatestTail(r);
    var l := Latest(r);
    var p := r[..|r| - |l|];
    hide Latest, Without, Distinct;
    WithoutInBack(p, l, k);
    MoveToEnd(p, l[..k] + l[k + 1..], l[k]);
  }

  lemma MoveToEnd(p: seq<nat>, m: seq<nat>, x: nat)
    requires |m| < MAX_DEVICES && (|m| + 1 < MAX_DEVICES ==> p == [])
    ensures Latest(p + m + [x]) == m + [x]
  {
    assert p + m + [x] == p + (m + [x]);
    LatestSplit(p, m + [x]);
  }

  lemma LatestMiss(r: seq<nat>, a: nat)
    requires a !in Latest(r)
    ensures var l := Latest(r);
      Latest(Without(r, a) + [a]) == (if |l| < MAX_DEVICES then l else l[1..]) + [a]
  {
    LatestTail(r);
    var l := Latest(r);
    hide Latest, Without;
    var p := r[..|r| - |l|];
    WithoutConcat(p, l, a);
    WithoutAbsent(l, a);
    if |l| < MAX_DEVICES {
      WithoutAbsent(p, a);
      MoveToEnd(p, l, a);
    } else {
      var x := Without(p, a);
      assert x + l == (x + [l[0]]) + l[1..];
      MoveToEnd(x + [l[0]], l[1..], a);
    }
  }

  lemma RecencyNext(used: seq<nat>, a: nat)
    ensures Recency(used + [a]) == Without(Recency(used), a) + [a]
  {
    assert (used + [a])[..|used|] == used;
  }

  lemma AddrsKept(w: World, q: Request)
    requires Inv(w) && Fair(w, q)
    ensures Addrs(Use(Cache(Entries(w.slots), w.live), q.addr, q.add, q.removed).2.entries) == Latest(Recency(Serve(w, q).used))
  {
    AccessAgrees(w.slots, w.live, q.addr, q.add, q.removed);
    var es := Entries(w.slots);
    var u := Use(Cache(es, w.live), q.addr, q.add, q.removed);
    assert Serve(w, q).used == if u.0.Ok? then w.used + [q.addr] else w.used;
    RecencyNext(w.used, q.addr);
    UseAddrs(Cache(es, w.live), q, Recency(w.used));
  }

  lemma UseAddrs(c: Cache, q: Request, r: seq<nat>)
    requires Addrs(c.entries) == Latest(r) && Distinct(r)
    ensures var u := Use(c, q.addr, q.add, q.removed);
      Addrs(u.2.entries) == Latest(if u.0.Ok? then Without(r, q.addr) + [q.addr] else r)
  {
    var es := c.entries;
    var k := Find(es, q.addr);
    var u := Use(c, q.addr, q.add, q.removed);
    hide Latest, Without, Distinct, Find;
    if k < |es| {
      assert Addrs(es)[k] == q.addr;
      LatestHit(r, k);
      AddrsMoved(es, k);
    } else {
      forall i | 0 <= i < |es| ensures Addrs(es)[i] != q.addr {
        assert es[i].addr != q.addr;
      }
      LatestMiss(r, q.addr);
      assert Addrs(es + [Entry(q.addr, 0)]) == Addrs(es) + [q.addr];
    }
  }

  lemma AddrsMoved(es: seq<Entry>, k: nat)
    requires k < |es|
    ensures Addrs(es[..k] + es[k + 1..] + [es[k]]) == Addrs(es)[..k] + Addrs(es)[k + 1..] + [es[k].addr]
  {
  }

  lemma HandlesKept(w: World, q: Request)
    requires Prefix(w.slots) && HandlesSound(Entries(w.slots), w.live, w.leaked) && Fair(w, q)
    ensures var c := Use(Cache(Entries(w.slots), w.live), q.addr, q.add, q.removed).2;
      HandlesSound(c.entries, c.live, Serve(w, q).leaked)
  {
    var es := Entries(w.slots);
    EvictsWhen(w.slots, q);
    assert |es| == MAX_DEVICES ==> es == w.slots;
    UseHandles(Cache(es, w.live), q, w.leaked);
    hide HandlesSound, Use, Entries, Find;
  }

  /** The same on the list of entries. */
  lemma UseHandles(c: Cache, q: Request, leaked: set<nat>)
    requires HandlesSound(c.entries, c.live, leaked) && |c.entries| <= MAX_DEVICES && (q.add.Added? ==> q.add.handle !in c.live)
    ensures var es := c.entries;
      var evicts := Find(es, q.addr) == |es| == MAX_DEVICES && q.add.Added?;
      var u := Use(c, q.addr, q.add, q.removed).2;
      HandlesSound(u.entries, u.live, if evicts && !q.removed then leaked + {es[0].handle} else leaked)
  {
    var es := c.entries;
    var k := Find(es, q.addr);
    assert k <= |es|;
    hide HandlesSound, Find;
    if k < |es| {
      HitHandles(es, k, c.live, leaked);
    } else if q.add.Added? {
      var e := Entry(q.addr, q.add.handle);
      NewHandle(es, e, c.live, leaked);
      if |es| == MAX_DEVICES {
        assert (es + [e])[1..] == es[1..] + [e];
        DropHandle(es + [e], c.live + {e.handle}, leaked, q.removed);
        var none: set<nat> := {};
        assert leaked + none == leaked;
      }
    }
  }

  /** A hit only permutes the entries. */
  lemma Moved(es: seq<Entry>, k: nat)
    requires k < |es|
    ensures var fs := es[..k] + es[k + 1..] + [es[k]];
      |fs| == |es| && (forall i :: 0 <= i < |es| ==> fs[i] == es[if i < k then i else if i < |es| - 1 then i + 1 else k])
      && forall e :: e in fs <==> e in es
  {
    assert es == es[..k] + [es[k]] + es[k + 1..];
  }

  lemma HitHandles(es: seq<Entry>, k: nat, live: set<nat>, leaked: set<nat>)
    requires k < |es| && HandlesSound(es, live, leaked)
    ensures HandlesSound(es[..k] + es[k + 1..] + [es[k]], live, leaked)
  {
    var fs := es[..k] + es[k + 1..] + [es[k]];
    Moved(es, k);
    assert Handles(fs) == Handles(es);
  }

  lemma NewHandle(es: seq<Entry>, e: Entry, live: set<nat>, leaked: set<nat>)
    requires HandlesSound(es, live, leaked) && e.handle !in live
    ensures HandlesSound(es + [e], live + {e.handle}, leaked)
  {
    HandlesJoin(es, [e]);
    forall i | 0 <= i < |es| ensures es[i].handle != e.handle {
      assert es[i] in es && es[i].handle in Handles(es);
    }
  }

  lemma DropHandle(es: seq<Entry>, live: set<nat>, leaked: set<nat>, removed: bool)
    requires |es| > 0 && HandlesSound(es, live, leaked)
    ensures var h := es[0].handle;
      HandlesSound(es[1..], live - (if removed then {h} else {}), leaked + (if removed then {} else {h}))
  {
    var h := es[0].handle;
    HandlesJoin([es[0]], es[1..]);
    assert es == [es[0]] + es[1..];
    assert h !in Handles(es[1..]);
    assert h in Handles(es);
  }

  lemma HandlesJoin(a: seq<Entry>, b: seq<Entry>)
    ensures Handles(a + b) == Handles(a) + Handles(b)
    ensures |b| == 1 ==> Handles(b) == {b[0].handle}
    ensures |a| == 1 ==> Handles(a) == {a[0].handle}
  {
    assert forall e :: e in a + b <==> e in a || e in b;
    assert |b| == 1 ==> b[0] in b;
    assert |a| == 1 ==> a[0] in a;
  }

  lemma EvictsWhen(slots: seq<Entry>, q: Request)
    requires Prefix(slots) && q.addr != 0
    ensures Evicts(slots, q) <==> |Entries(slots)| == MAX_DEVICES && Find(Entries(slots), q.addr) == MAX_DEVICES && q.add.Added?
  {
    var es := Entries(slots);
    if |es| == MAX_DEVICES {
      assert es == slots;
    }
  }

  lemma ServeInv(w: World, q: Request)
    requires Inv(w) && Fair(w, q)
    ensures Inv(Serve(w, q))
  {
    AccessAgrees(w.slots, w.live, q.addr, q.add, q.removed);
    AddrsKept(w, q);
    HandlesKept(w, q);
  }

  // ---------- whole runs ----------

  /** After any run the occupied slots are the prefix of the table, and hold exactly the most
      recently used distinct addresses in the order of their last use; the live handles are the
      listed ones and the leaked ones. */
  lemma {:induction false} MostRecentCached(qs: seq<Request>)
    requires AllFair(qs)
    ensures Inv(Run(START, qs))
  {
    if |qs| == 0 {
      FindUnique(START.slots, 0, 0);
    } else {
      var p := qs[..|qs| - 1];
      assert qs[..|qs|] == qs;
      forall i | 0 <= i < |p| ensures Fair(Run(START, p[..i]), p[i]) {
        assert p[..i] == qs[..i];
      }
      MostRecentCached(p);
      ServeInv(Run(START, p), qs[|qs| - 1]);
    }
  }

  /** Every handle given out is live and is the one listed for that address; a refused device
      changes neither membership nor order nor what is live. */
  lemma HandleIsLive(qs: seq<Request>, q: Request)
    requires AllFair(qs) && Fair(Run(START, qs), q)
    ensures var w := Run(START, qs);
      var o := Access(w.slots, w.live, q.addr, q.add, q.removed);
      var es := Entries(o.slots);
      if o.status.Ok? then |es| > 0 && es[|es| - 1] == Entry(q.addr, o.handle) && o.handle in o.live
      else o.slots == w.slots && o.live == w.live
  {
    MostRecentCached(qs);
    var w := Run(START, qs);
    AccessAgrees(w.slots, w.live, q.addr, q.add, q.removed);
    HandlesKept(w, q);
    LastListed(Cache(Entries(w.slots), w.live), q, Serve(w, q).leaked);
    hide Run, Recency, Latest;
  }

  lemma LastListed(c: Cache, q: Request, leaked: set<nat>)
    requires var u := Use(c, q.addr, q.add, q.removed);
      HandlesSound(u.2.entries, u.2.live, leaked)
    ensures var (status, handle, d) := Use(c, q.addr, q.add, q.removed);
      status.Ok? ==> |d.entries| > 0 && d.entries[|d.entries| - 1] == Entry(q.addr, handle) && handle in d.live
  {
    var (status, handle, d) := Use(c, q.addr, q.add, q.removed);
    if status.Ok? {
      assert d.entries[|d.entries| - 1] in d.entries;
      assert handle in Handles(d.entries);
    }
  }

  /** If the i-th access evicts a device, the bus driver takes its handle back. */
  predicate TakenBack(qs: seq<Request>, i: nat)
    requires i < |qs|
  {
    Evicts(Run(START, qs[..i]).slots, qs[i]) ==> qs[i].removed
  }

  /** Live handles are exactly the listed ones if and only if every removal of an evicted device succeeded. */
  lemma {:induction false} NothingLeaksIff(qs: seq<Request>)
    requires AllFair(qs)
    ensures var w := Run(START, qs);
      w.live == Handles(Entries(w.slots)) <==> forall i: nat :: i < |qs| ==> TakenBack(qs, i)
  {
    MostRecentCached(qs);
    LeakedIff(qs, |qs|);
    assert qs[..|qs|] == qs;
    var w := Run(START, qs);
    assert w.live == Handles(Entries(w.slots)) <==> w.leaked == {} by {
      assert w.leaked != {} ==> exists h :: h in w.leaked;
    }
  }

  lemma {:induction false} LeakedIff(qs: seq<Request>, n: nat)
    requires n <= |qs|
    ensures Run(START, qs[..n]).leaked == {} <==> forall i: nat :: i < n ==> TakenBack(qs, i)
  {
    if n == 0 {
      assert qs[..0] == [];
    } else {
      hide *;
      LeakedIff(qs, n - 1);
      LeakedNext(qs, n - 1);
      OneMoreTaken(qs, n - 1);
    }
  }

  lemma OneMoreTaken(qs: seq<Request>, n: nat)
    requires n < |qs|
    ensures (forall i: nat :: i < n + 1 ==> TakenBack(qs, i)) <==> (forall i: nat :: i < n ==> TakenBack(qs, i)) && TakenBack(qs, n)
  {
    hide *;
    if forall i: nat :: i < n ==> TakenBack(qs, i) {
      assert TakenBack(qs, n) ==> forall i: nat :: i < n + 1 ==> TakenBack(qs, i);
    }
  }

  lemma LeakedNext(qs: seq<Request>, i: nat)
    requires i < |qs|
    ensures Run(START, qs[..i + 1]).leaked == {} <==> Run(START, qs[..i]).leaked == {} && TakenBack(qs, i)
  {
    RunNext(qs, i);
    LeaksNow(Run(START, qs[..i]), qs[i]);
  }

  lemma RunNext(qs: seq<Request>, i: nat)
    requires i < |qs|
    ensures Run(START, qs[..i + 1]) == Serve(Run(START, qs[..i]), qs[i])
    ensures TakenBack(qs, i) <==> (Evicts(Run(START, qs[..i]).slots, qs[i]) ==> qs[i].removed)
  {
    hide Serve, Evicts;
    assert qs[..i + 1][..i] == qs[..i];
  }

  lemma LeaksNow(w: World, q: Request)
    requires |w.slots| == MAX_DEVICES
    ensures Serve(w, q).leaked == {} <==> w.leaked == {} && (Evicts(w.slots, q) ==> q.removed)
  {
    hide Evicts, Access;
    assert w.slots[0].handle in w.leaked + {w.slots[0].handle};
  }
}
