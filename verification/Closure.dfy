/** The dependency closure of verify_phase_c_closed_loop.py: a worklist over a capability catalog,
    and the reachable set it computes. */
module Closure {

  /** A configuration value; None stands for a missing attribute and for a YAML null. */
  datatype Value = None | Text(s: string)

  datatype Expected = OneOf(values: seq<Value>) | Exactly(value: Value)

  /** The items of a `when` mapping in file order, or something that is not a mapping. */
  datatype When = Mapping(items: seq<(string, Expected)>) | NotAMapping

  /** Capabilities are numbered in the order of their names. */
  datatype Condition = Condition(cond: When, requires_: seq<nat>)

  datatype Capability = Capability(status: string, mandatory: seq<nat>, conditional: seq<Condition>)

  datatype Problem = Problem(caps: map<nat, Capability>, config: map<string, Value>)

  datatype Truth = Matches | Differs | Anomaly

  datatype Found = Succs(list: seq<nat>) | Anomalous

  datatype Outcome = Satisfied(closure: set<nat>) | Blocked | Unknown

  // ---------- conditions ----------

  predicate Whitelisted(k: string) {
    k == "profile" || k == "backend" || k == "target_soc"
  }

  predicate Agrees(config: map<string, Value>, item: (string, Expected)) {
    var actual := if item.0 in config then config[item.0] else None;
    match item.1
    case OneOf(values) => actual in values
    case Exactly(value) => actual == value
  }

  /** Items are looked at in order, up to the first one that is not allowed or does not agree. */
  function EvalItems(config: map<string, Value>, items: seq<(string, Expected)>): Truth {
    if |items| == 0 then Matches
    else if !Whitelisted(items[0].0) then Anomaly
    else if !Agrees(config, items[0]) then Differs
    else EvalItems(config, items[1..])
  }

  function Eval(config: map<string, Value>, w: When): Truth {
    match w
    case NotAMapping => Anomaly
    case Mapping(items) => EvalItems(config, items)
  }

  /** The first n items are allowed and agree. */
  predicate AgreesUpTo(config: map<string, Value>, items: seq<(string, Expected)>, n: nat)
    requires n <= |items|
  {
    forall j :: 0 <= j < n ==> Whitelisted(items[j].0) && Agrees(config, items[j])
  }

  lemma AgreesFirst(config: map<string, Value>, items: seq<(string, Expected)>, n: nat)
    requires 0 < n <= |items|
    ensures AgreesUpTo(config, items, n) <==> Whitelisted(items[0].0) && Agrees(config, items[0]) && AgreesUpTo(config, items[1..], n - 1)
  {
    hide Whitelisted, Agrees;
    var rest := items[1..];
    assert forall j :: 0 <= j < n - 1 ==> rest[j] == items[j + 1];
    if AgreesUpTo(config, items, n) {
      forall j | 0 <= j < n - 1 ensures Whitelisted(rest[j].0) && Agrees(config, rest[j]) {
        assert Agrees(config, items[j + 1]);
      }
    } else if Whitelisted(items[0].0) && Agrees(config, items[0]) && AgreesUpTo(config, rest, n - 1) {
      forall j | 0 <= j < n ensures Whitelisted(items[j].0) && Agrees(config, items[j]) {
        assert j > 0 ==> Agrees(config, rest[j - 1]);
      }
    }
  }

  /** A disallowed attribute is an anomaly exactly when everything before it agrees: behind a
      mismatch it goes unnoticed. */
  lemma {:induction false} AnomalyIff(config: map<string, Value>, items: seq<(string, Expected)>)
    ensures EvalItems(config, items) == Anomaly <==> exists i: nat :: i < |items| && AgreesUpTo(config, items, i) && !Whitelisted(items[i].0)
    ensures EvalItems(config, items) == Matches <==> AgreesUpTo(config, items, |items|)
  {
    if |items| > 0 {
      var rest := items[1..];
      AnomalyIff(config, rest);
      AgreesFirst(config, items, |items|);
      assert AgreesUpTo(config, items, 0);
      hide AgreesUpTo, Whitelisted, Agrees;
      forall i: nat | 0 < i < |items|
        ensures AgreesUpTo(config, items, i) <==> Whitelisted(items[0].0) && Agrees(config, items[0]) && AgreesUpTo(config, rest, i - 1) {
        AgreesFirst(config, items, i);
      }
      if i: nat :| i < |rest| && AgreesUpTo(config, rest, i) && !Whitelisted(rest[i].0) {
        assert items[i + 1] == rest[i] && (AgreesUpTo(config, items, i + 1) <==> Whitelisted(items[0].0) && Agrees(config, items[0]));
      }
      if i: nat :| 0 < i < |items| && AgreesUpTo(config, items, i) && !Whitelisted(items[i].0) {
        assert rest[i - 1] == items[i];
      }
    }
  }

  // ---------- one capability ----------

  function Conditionals(config: map<string, Value>, cs: seq<Condition>): Found {
    if |cs| == 0 then Succs([])
    else
      match Conditionals(config, cs[..|cs| - 1])
      case Anomalous => Anomalous
      case Succs(list) =>
        var c := cs[|cs| - 1];
        match Eval(config, c.cond)
        case Anomaly => Anomalous
        case Differs => Succs(list)
        case Matches => Succs(list + c.requires_)
  }

  predicate Ready(c: Capability) {
    c.status == "implemented" || c.status == "verified"
  }

  /** Defined, implemented, and every condition evaluates. */
  predicate Good(p: Problem, c: nat) {
    c in p.caps && Ready(p.caps[c]) && Conditionals(p.config, p.caps[c].conditional).Succs?
  }

  function Edges(p: Problem, c: nat): seq<nat> {
    if Good(p, c) then p.caps[c].mandatory + Conditionals(p.config, p.caps[c].conditional).list else []
  }

  // ---------- the worklist ----------

  function Fresh(ds: seq<nat>, done: set<nat>): seq<nat> {
    if |ds| == 0 then [] else Fresh(ds[..|ds| - 1], done) + (if ds[|ds| - 1] in done then [] else [ds[|ds| - 1]])
  }

  /** The worklist and the closure so far. */
  datatype Loop = Loop(work: seq<nat>, done: set<nat>)

  predicate Within(p: Problem, l: Loop) {
    l.done <= p.caps.Keys
  }

  /** Capabilities that may still join the closure. */
  function Room(p: Problem, l: Loop): nat {
    |p.caps.Keys - l.done|
  }

  /** A good capability joins, and its dependencies that are not done are appended. */
  function Grown(p: Problem, l: Loop): Loop
    requires |l.work| > 0
  {
    var done := l.done + {l.work[0]};
    Loop(l.work[1..] + Fresh(Edges(p, l.work[0]), done), done)
  }

  function Popped(l: Loop): Loop
    requires |l.work| > 0
  {
    Loop(l.work[1..], l.done)
  }

  lemma GrownWithin(p: Problem, l: Loop)
    requires Within(p, l) && |l.work| > 0 && Good(p, l.work[0]) && l.work[0] !in l.done
    ensures Within(p, Grown(p, l)) && Room(p, Grown(p, l)) < Room(p, l)
  {
    assert p.caps.Keys - (l.done + {l.work[0]}) == (p.caps.Keys - l.done) - {l.work[0]};
  }

  function Close(p: Problem, l: Loop): Outcome
    requires Within(p, l)
    decreases Room(p, l), |l.work|
  {
    if |l.work| == 0 then Satisfied(l.done)
    else
      var c := l.work[0];
      if c !in p.caps then Blocked
      else if c in l.done then Close(p, Popped(l))
      else if !Ready(p.caps[c]) then Blocked
      else if !Good(p, c) then Unknown
      else
        GrownWithin(p, l);
        Close(p, Grown(p, l))
  }

  // ---------- reachability ----------

  /** A chain of dependencies from a root; every capability but the last is good. */
  predicate Path(p: Problem, roots: seq<nat>, path: seq<nat>) {
    && |path| > 0 && path[0] in roots
    && forall i :: 0 <= i < |path| - 1 ==> path[i + 1] in Edges(p, path[i])
  }

  ghost predicate Reachable(p: Problem, roots: seq<nat>, c: nat) {
    exists path: seq<nat> :: Path(p, roots, path) && path[|path| - 1] == c
  }

  lemma RootReachable(p: Problem, roots: seq<nat>, c: nat)
    requires c in roots
    ensures Reachable(p, roots, c)
  {
    assert Path(p, roots, [c]) && [c][|[c]| - 1] == c;
  }

  lemma EdgeReachable(p: Problem, roots: seq<nat>, c: nat, d: nat)
    requires Reachable(p, roots, c) && d in Edges(p, c)
    ensures Reachable(p, roots, d)
  {
    var path :| Path(p, roots, path) && path[|path| - 1] == c;
    var longer := path + [d];
    assert Path(p, roots, longer) && longer[|longer| - 1] == d;
  }

  lemma {:induction false} FreshMembers(ds: seq<nat>, done: set<nat>)
    ensures forall d :: d in Fresh(ds, done) <==> d in ds && d !in done
  {
    if |ds| > 0 {
      FreshMembers(ds[..|ds| - 1], done);
      assert ds == ds[..|ds| - 1] + [ds[|ds| - 1]];
    }
  }

  /** A set that holds the roots, has only good members, and follows every edge. */
  predicate Supports(p: Problem, roots: seq<nat>, s: set<nat>) {
    && (forall c :: c in roots ==> c in s)
    && (forall c :: c in s ==> Good(p, c))
    && (forall c, d :: c in s && d in Edges(p, c) ==> d in s)
  }

  /** What is done is good and leads only to what is done or still to do. */
  predicate Pending(p: Problem, l: Loop) {
    && (forall c :: c in l.done ==> Good(p, c))
    && (forall c, d :: c in l.done && d in Edges(p, c) ==> d in l.done || d in l.work)
  }

  lemma PendingGrown(p: Problem, l: Loop)
    requires |l.work| > 0 && Pending(p, l) && Good(p, l.work[0])
    ensures Pending(p, Grown(p, l))
  {
    var c := l.work[0];
    var e := Grown(p, l);
    FreshMembers(Edges(p, c), e.done);
    hide Edges, Good, Fresh;
    assert l.work == [c] + l.work[1..];
    forall x, d | x in e.done && d in Edges(p, x) ensures d in e.done || d in e.work {
      if x == c {
        assert d in Fresh(Edges(p, c), e.done) || d in e.done;
      } else {
        assert d in l.done || d in l.work;
      }
    }
  }

  lemma PendingPopped(p: Problem, l: Loop)
    requires |l.work| > 0 && Pending(p, l) && l.work[0] in l.done
    ensures Pending(p, Popped(l))
  {
    hide Edges, Good;
    assert l.work == [l.work[0]] + l.work[1..];
  }

  /** The outcome supports the loop's work and keeps what was done. */
  predicate Supported(p: Problem, l: Loop, o: Outcome) {
    o.Satisfied? ==> Supports(p, l.work, o.closure) && l.done <= o.closure
  }

  lemma SupportedBefore(p: Problem, l: Loop, e: Loop, o: Outcome)
    requires |l.work| > 0 && l.work[0] in e.done && l.done <= e.done && forall c :: c in l.work[1..] ==> c in e.work
    requires Supported(p, e, o)
    ensures Supported(p, l, o)
  {
    hide Edges, Good;
    assert l.work == [l.work[0]] + l.work[1..];
  }

  /** Success means a supporting set that contains all the work. */
  lemma {:induction false} CloseSound(p: Problem, l: Loop)
    requires Within(p, l) && Pending(p, l)
    ensures Supported(p, l, Close(p, l))
    decreases Room(p, l), |l.work|
  {
    if |l.work| == 0 {
      hide Edges, Good;
    } else if l.work[0] in p.caps && l.work[0] in l.done {
      PendingPopped(p, l);
      hide Pending, Supported, Good;
      CloseSound(p, Popped(l));
      SupportedBefore(p, l, Popped(l), Close(p, l));
    } else if Good(p, l.work[0]) {
      GrownWithin(p, l);
      PendingGrown(p, l);
      hide Pending, Supported, Within, Room, Fresh, Edges;
      CloseSound(p, Grown(p, l));
      SupportedBefore(p, l, Grown(p, l), Close(p, l));
    }
  }

  ghost predicate AllReachable(p: Problem, roots: seq<nat>, l: Loop) {
    forall c :: c in l.work || c in l.done ==> Reachable(p, roots, c)
  }

  lemma GrownReachable(p: Problem, roots: seq<nat>, l: Loop)
    requires |l.work| > 0 && AllReachable(p, roots, l)
    ensures AllReachable(p, roots, Grown(p, l)) && AllReachable(p, roots, Popped(l))
  {
    var c := l.work[0];
    var es := Edges(p, c);
    hide Edges, Reachable;
    assert c in l.work;
    assert l.work == [c] + l.work[1..];
    forall d | d in es ensures Reachable(p, roots, d) {
      EdgeReachable(p, roots, c, d);
    }
    FreshMembers(es, l.done + {c});
  }

  /** Everything looked at is reachable; a failure names a reachable culprit. */
  lemma {:induction false} CloseReaches(p: Problem, roots: seq<nat>, l: Loop)
    requires Within(p, l) && AllReachable(p, roots, l)
    ensures match Close(p, l)
            case Satisfied(closure) => forall c :: c in closure ==> Reachable(p, roots, c)
            case Blocked => exists c :: Reachable(p, roots, c) && (c !in p.caps || !Ready(p.caps[c]))
            case Unknown => exists c :: Reachable(p, roots, c) && c in p.caps && Ready(p.caps[c]) && !Good(p, c)
    decreases Room(p, l), |l.work|
  {
    hide Reachable;
    if |l.work| > 0 {
      var c := l.work[0];
      assert c in l.work && Reachable(p, roots, c);
      GrownReachable(p, roots, l);
      if c in p.caps && c in l.done {
        CloseReaches(p, roots, Popped(l));
      } else if Good(p, c) {
        GrownWithin(p, l);
        hide AllReachable, Within, Room, Fresh, Edges;
        CloseReaches(p, roots, Grown(p, l));
      }
    }
  }

  lemma {:induction false} SupportHolds(p: Problem, roots: seq<nat>, s: set<nat>, path: seq<nat>)
    requires Supports(p, roots, s) && Path(p, roots, path)
    ensures path[|path| - 1] in s
  {
    if |path| > 1 {
      var front := path[..|path| - 1];
      forall i | 0 <= i < |front| - 1 ensures front[i + 1] in Edges(p, front[i]) {
        assert path[i + 1] in Edges(p, path[i]);
      }
      SupportHolds(p, roots, s, front);
      assert path[|path| - 2 + 1] in Edges(p, path[|path| - 2]);
    }
  }

  /** The closure is satisfied exactly when every reachable capability is defined, implemented and
      evaluates without anomaly, and it is then exactly the reachable set. Otherwise the verdict
      names the kind of some reachable culprit. */
  lemma ClosureExact(p: Problem, roots: seq<nat>)
    ensures var o := Close(p, Loop(roots, {}));
      && (o.Satisfied? <==> forall c :: Reachable(p, roots, c) ==> Good(p, c))
      && (o.Satisfied? ==> forall c :: c in o.closure <==> Reachable(p, roots, c))
      && (o.Blocked? ==> exists c :: Reachable(p, roots, c) && (c !in p.caps || !Ready(p.caps[c])))
      && (o.Unknown? ==> exists c :: Reachable(p, roots, c) && c in p.caps && Ready(p.caps[c]) && !Good(p, c))
  {
    var o := Close(p, Loop(roots, {}));
    forall c | c in roots ensures Reachable(p, roots, c) {
      RootReachable(p, roots, c);
    }
    CloseReaches(p, roots, Loop(roots, {}));
    CloseSound(p, Loop(roots, {}));
    hide Close;
    if o.Satisfied? {
      forall c | Reachable(p, roots, c) ensures c in o.closure {
        var path :| Path(p, roots, path) && path[|path| - 1] == c;
        SupportHolds(p, roots, o.closure, path);
      }
    }
  }

  /** Neither the order nor repetitions of the roots matter to success or to the closure. */
  lemma OrderIndependent(p: Problem, roots: seq<nat>, others: seq<nat>)
    requires forall c :: c in roots <==> c in others
    ensures var o := Close(p, Loop(roots, {}));
      var u := Close(p, Loop(others, {}));
      (o.Satisfied? <==> u.Satisfied?) && (o.Satisfied? ==> o == u)
  {
    ClosureExact(p, roots);
    ClosureExact(p, others);
    var o, u := Close(p, Loop(roots, {})), Close(p, Loop(others, {}));
    hide Close, Good;
    forall c ensures Reachable(p, roots, c) <==> Reachable(p, others, c) {
      SameReach(p, roots, others, c);
      SameReach(p, others, roots, c);
    }
    if o.Satisfied? && u.Satisfied? {
      assert o.closure == u.closure;
    }
  }

  lemma SameReach(p: Problem, roots: seq<nat>, others: seq<nat>, c: nat)
    requires forall d :: d in roots ==> d in others
    ensures Reachable(p, roots, c) ==> Reachable(p, others, c)
  {
    if Reachable(p, roots, c) {
      var path :| Path(p, roots, path) && path[|path| - 1] == c;
      assert Path(p, others, path);
    }
  }

  /** But which failure is reported does depend on the order of the roots. */
  lemma FailureDependsOnOrder()
    ensures var p := Problem(map[1 := Capability("verified", [], [Condition(NotAMapping, [])])], map[]);
      Close(p, Loop([0, 1], {})) == Blocked && Close(p, Loop([1, 0], {})) == Unknown
  {
    var c := Capability("verified", [], [Condition(NotAMapping, [])]);
    assert c.conditional[..0] == [];
    assert Conditionals(map[], c.conditional) == Anomalous;
  }

  // ---------- the loop ----------

  datatype Verdict = SatisfiedVerdict | BlockedVerdict | UnknownVerdict

  predicate Ascending(s: seq<nat>) {
    forall i, j :: 0 <= i < j < |s| ==> s[i] < s[j]
  }

  /** The dependency loops over one capability; `ok` is false on an anomaly. */
  method Successors(p: Problem, c: nat, done: set<nat>, work: seq<nat>) returns (ok: bool, more: seq<nat>)
    requires c in p.caps && Ready(p.caps[c])
    ensures ok == Good(p, c)
    ensures ok ==> more == work + Fresh(Edges(p, c), done)
  {
    var cap := p.caps[c];
    more := AppendFresh(work, cap.mandatory, done);
    ok, more := AppendMatching(p.config, cap.conditional, done, more);
    if ok {
      FreshConcat(cap.mandatory, Conditionals(p.config, cap.conditional).list, done);
    }
  }

  method AppendMatching(config: map<string, Value>, cs: seq<Condition>, done: set<nat>, work: seq<nat>) returns (ok: bool, more: seq<nat>)
    ensures ok == Conditionals(config, cs).Succs?
    ensures ok ==> more == work + Fresh(Conditionals(config, cs).list, done)
  {
    more := work;
    ghost var seen := [];
    assert cs[..0] == [] && Fresh(seen, done) == [];
    for i := 0 to |cs|
      invariant Conditionals(config, cs[..i]) == Succs(seen)
      invariant more == work + Fresh(seen, done)
    {
      NextCondition(config, cs, i);
      hide *;
      var truth := EvalWhen(config, cs[i].cond);
      if truth == Anomaly {
        AnomalyStays(config, cs, i + 1);
        return false, [];
      }
      if truth == Matches {
        FreshConcat(seen, cs[i].requires_, done);
        seen := seen + cs[i].requires_;
        more := AppendFresh(more, cs[i].requires_, done);
      }
    }
    assert cs[..|cs|] == cs;
    return true, more;
  }

  lemma NextCondition(config: map<string, Value>, cs: seq<Condition>, i: nat)
    requires i < |cs| && Conditionals(config, cs[..i]).Succs?
    ensures var list := Conditionals(config, cs[..i]).list;
      Conditionals(config, cs[..i + 1]) == match Eval(config, cs[i].cond)
                                           case Anomaly => Anomalous
                                           case Differs => Succs(list)
                                           case Matches => Succs(list + cs[i].requires_)
  {
    assert cs[..i + 1][..i] == cs[..i];
  }

  method AppendFresh(work: seq<nat>, ds: seq<nat>, done: set<nat>) returns (more: seq<nat>)
    ensures more == work + Fresh(ds, done)
  {
    more := work;
    for i := 0 to |ds|
      invariant more == work + Fresh(ds[..i], done)
    {
      assert ds[..i + 1][..i] == ds[..i];
      if ds[i] !in done {
        more := more + [ds[i]];
      }
    }
    assert ds[..|ds|] == ds;
  }

  method EvalWhen(config: map<string, Value>, w: When) returns (truth: Truth)
    ensures truth == Eval(config, w)
  {
    if w.NotAMapping? {
      return Anomaly;
    }
    for i := 0 to |w.items|
      invariant EvalItems(config, w.items) == EvalItems(config, w.items[i..])
    {
      assert w.items[i..][1..] == w.items[i + 1..];
      if !Whitelisted(w.items[i].0) {
        return Anomaly;
      }
      if !Agrees(config, w.items[i]) {
        return Differs;
      }
    }
    return Matches;
  }

  lemma {:induction false} FreshConcat(a: seq<nat>, b: seq<nat>, done: set<nat>)
    ensures Fresh(a + b, done) == Fresh(a, done) + Fresh(b, done)
  {
    if |b| == 0 {
      assert a + b == a;
    } else {
      FreshConcat(a, b[..|b| - 1], done);
      assert (a + b)[..|a + b| - 1] == a + b[..|b| - 1];
    }
  }

  lemma {:induction false} AnomalyStays(config: map<string, Value>, cs: seq<Condition>, i: nat)
    requires i <= |cs| && Conditionals(config, cs[..i]).Anomalous?
    ensures Conditionals(config, cs).Anomalous?
    decreases |cs| - i
  {
    if i == |cs| {
      assert cs[..i] == cs;
    } else {
      assert cs[..i + 1][..i] == cs[..i];
      AnomalyStays(config, cs, i + 1);
    }
  }

  /** The whole evaluation, with the closure as a sorted list. */
  method Evaluate(p: Problem, roots: seq<nat>) returns (verdict: Verdict, list: seq<nat>)
    ensures match Close(p, Loop(roots, {}))
            case Satisfied(closure) => verdict == SatisfiedVerdict && Ascending(list) && (forall c :: c in list <==> c in closure)
            case Blocked => verdict == BlockedVerdict && list == []
            case Unknown => verdict == UnknownVerdict && list == []
  {
    var done: set<nat> := {};
    var work := roots;
    while |work| > 0
      invariant Within(p, Loop(work, done))
      invariant Close(p, Loop(work, done)) == Close(p, Loop(roots, {}))
      decreases Room(p, Loop(work, done)), |work|
    {
      ghost var l := Loop(work, done);
      var c := work[0];
      work := work[1..];
      if c !in p.caps {
        return BlockedVerdict, [];
      }
      if c in done {
        continue;
      }
      if !Ready(p.caps[c]) {
        return BlockedVerdict, [];
      }
      done := done + {c};
      var ok, more := Successors(p, c, done, work);
      if !ok {
        return UnknownVerdict, [];
      }
      GrownWithin(p, l);
      work := more;
      assert Loop(work, done) == Grown(p, l);
    }
    list := Sorted(done);
    return SatisfiedVerdict, list;
  }

  method Sorted(s: set<nat>) returns (list: seq<nat>)
    ensures Ascending(list) && forall c :: c in list <==> c in s
  {
    list := [];
    var rest := s;
    while rest != {}
      invariant Ascending(list) && rest <= s && (forall c :: c in s <==> c in list || c in rest)
      invariant forall i, c :: 0 <= i < |list| && c in rest ==> list[i] < c
      decreases |rest|
    {
      HasLeast(rest);
      var x :| IsLeast(x, rest);
      list := list + [x];
      rest := rest - {x};
    }
  }

  predicate IsLeast(x: nat, s: set<nat>) {
    x in s && forall y :: y in s ==> x <= y
  }

  lemma {:induction false} HasLeast(s: set<nat>)
    requires s != {}
    ensures exists x :: IsLeast(x, s)
  {
    var a :| a in s;
    var rest := s - {a};
    if rest == {} {
      assert s == {a};
      assert IsLeast(a, s);
    } else {
      HasLeast(rest);
      var x :| IsLeast(x, rest);
      assert s == rest + {a};
      assert IsLeast(if a < x then a else x, s);
    }
  }

  lemma LastIsMax(a: seq<nat>)
    requires |a| > 0 && Ascending(a)
    ensures forall c :: c in a ==> c <= a[|a| - 1]
    ensures forall c :: c in a[..|a| - 1] <==> c in a && c != a[|a| - 1]
  {
    assert a == a[..|a| - 1] + [a[|a| - 1]];
  }

  lemma FirstIn(b: seq<nat>)
    ensures |b| > 0 ==> b[0] in b
  {
  }

  /** A set has only one sorted list. */
  lemma {:induction false} AscendingUnique(a: seq<nat>, b: seq<nat>)
    requires Ascending(a) && Ascending(b) && forall c :: c in a <==> c in b
    ensures a == b
  {
    if |a| == 0 {
      FirstIn(b);
    } else {
      assert a[|a| - 1] in b;
      LastIsMax(a);
      LastIsMax(b);
      var p, q := a[..|a| - 1], b[..|b| - 1];
      assert b[|b| - 1] in a && a[|a| - 1] == b[|b| - 1];
      forall c: nat ensures c in p <==> c in q {
        assert c in a <==> c in b;
      }
      AscendingUnique(p, q);
      assert a == a[..|a| - 1] + [a[|a| - 1]];
      assert b == b[..|b| - 1] + [b[|b| - 1]];
    }
  }

  // ---------- what a condition means ----------

  /** The attribute may be asked about, and its value (None if it is absent) is one of those listed, or the
      one given. */
  predicate ItemHolds(config: map<string, Value>, item: (string, Expected)) {
    && item.0 in {"profile", "backend", "target_soc"}
    && var v := if item.0 in config then config[item.0] else None;
       (item.1.OneOf? ==> exists i: nat :: i < |item.1.values| && item.1.values[i] == v)
       && (item.1.Exactly? ==> v == item.1.value)
  }

  /** Every item of the mapping holds. */
  predicate Holds(config: map<string, Value>, w: When) {
    w.Mapping? && forall i: nat :: i < |w.items| ==> ItemHolds(config, w.items[i])
  }

  /** Not a mapping, or an attribute that may not be asked about comes before any item that fails. */
  predicate Malformed(config: map<string, Value>, w: When) {
    w.NotAMapping? || exists i: nat ::
      i < |w.items| && w.items[i].0 !in {"profile", "backend", "target_soc"} && forall j: nat :: j < i ==> ItemHolds(config, w.items[j])
  }

  lemma ItemHoldsIff(config: map<string, Value>, item: (string, Expected))
    ensures ItemHolds(config, item) <==> Whitelisted(item.0) && Agrees(config, item)
  {
  }

  lemma UpToIff(config: map<string, Value>, items: seq<(string, Expected)>, n: nat)
    requires n <= |items|
    ensures AgreesUpTo(config, items, n) <==> forall i: nat :: i < n ==> ItemHolds(config, items[i])
  {
    forall i: nat | i < n ensures ItemHolds(config, items[i]) <==> Whitelisted(items[i].0) && Agrees(config, items[i]) {
      ItemHoldsIff(config, items[i]);
    }
    hide ItemHolds, Whitelisted, Agrees;
  }

  /** A condition matches exactly when it holds, and is an anomaly exactly when it is malformed. */
  lemma {:induction false} EvalExact(config: map<string, Value>, w: When)
    ensures Eval(config, w) == Matches <==> Holds(config, w)
    ensures Eval(config, w) == Anomaly <==> Malformed(config, w)
  {
    if w.Mapping? {
      var items := w.items;
      AnomalyIff(config, items);
      UpToIff(config, items, |items|);
      forall i: nat | i < |items| ensures Whitelisted(items[i].0) <==> items[i].0 in {"profile", "backend", "target_soc"} {
      }
      forall i: nat | i < |items| ensures AgreesUpTo(config, items, i) <==> forall j: nat :: j < i ==> ItemHolds(config, items[j]) {
        UpToIff(config, items, i);
      }
      hide ItemHolds, Whitelisted, Agrees, EvalItems, AgreesUpTo;
    }
  }

  /** The conditions of a capability evaluate if and only if none is malformed, and then ask for exactly what
      the ones that hold ask for. */
  lemma {:induction false} ConditionalsExact(config: map<string, Value>, cs: seq<Condition>)
    ensures Conditionals(config, cs).Succs? <==> forall k: nat :: k < |cs| ==> !Malformed(config, cs[k].cond)
    ensures Conditionals(config, cs).Succs? ==> forall d ::
      d in Conditionals(config, cs).list <==> exists k: nat :: k < |cs| && Holds(config, cs[k].cond) && d in cs[k].requires_
  {
    if |cs| > 0 {
      var init, last := cs[..|cs| - 1], cs[|cs| - 1];
      ConditionalsExact(config, init);
      EvalExact(config, last.cond);
      hide Malformed, Holds, Eval;
      assert forall k: nat :: k < |init| ==> init[k] == cs[k];
    }
  }

  /** A capability is good if and only if it is defined, implemented or verified, and none of its conditions
      is malformed; it then leads exactly to what it always requires and to what the conditions that hold
      require. */
  lemma GoodExact(p: Problem, c: nat)
    ensures Good(p, c) <==>
      (c in p.caps && p.caps[c].status in {"implemented", "verified"}
       && forall k: nat :: k < |p.caps[c].conditional| ==> !Malformed(p.config, p.caps[c].conditional[k].cond))
    ensures Good(p, c) ==> forall d :: d in Edges(p, c) <==>
      d in p.caps[c].mandatory
      || exists k: nat :: k < |p.caps[c].conditional| && Holds(p.config, p.caps[c].conditional[k].cond) && d in p.caps[c].conditional[k].requires_
  {
    if c in p.caps {
      ConditionalsExact(p.config, p.caps[c].conditional);
    }
    hide Malformed, Holds, Conditionals;
  }
}
