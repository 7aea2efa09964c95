/** What every run of the PWM router keeps, and exactly when changing a frequency breaks the sharing. */
module PwmRuns {
  import opened Status
  import opened Sets
  import opened Pwm

  datatype Move = ResetMove | AcquireMove(c: nat, a: Arg) | ReleaseMove(c: nat) | SetFreqMove(c: nat, freq: nat)

  function Step(s: State, m: Move): (e: State)
    requires Shape(s)
    ensures Shape(e) && |e.ready| == |s.ready|
  {
    match m
    case ResetMove => Blank(|s.ready|)
    case AcquireMove(c, a) => Acquire(s, c, a).2
    case ReleaseMove(c) => Release(s, c)
    case SetFreqMove(c, freq) => SetFreq(s, c, freq).1
  }

  function Run(channels: nat, ms: seq<Move>): (s: State)
    requires channels <= 255
    ensures Shape(s) && |s.ready| == channels
  {
    if |ms| == 0 then Blank(channels) else Step(Run(channels, ms[..|ms| - 1]), ms[|ms| - 1])
  }

  // ---------- reference counts ----------

  function Users(s: State, t: nat): set<nat>
    requires Shape(s)
  {
    set c: nat | c < |s.ready| && s.ready[c] && s.timerOf[c] == t
  }

  /** Each timer counts exactly the channels that use it; what is unused is blank. */
  predicate Counted(s: State) {
    && Shape(s)
    && (forall t: nat :: t < TIMERS ==> s.timers[t].refs == |Users(s, t)| && (s.timers[t].refs == 0 ==> s.timers[t] == FREE))
    && (forall c: nat :: c < |s.ready| && s.ready[c] ==> s.timerOf[c] < TIMERS)
    && (forall c: nat :: c < |s.ready| && !s.ready[c] ==> s.profiles[c] == NO_PROFILE && s.timerOf[c] == NO_TIMER)
  }

  lemma UsersBounded(s: State, t: nat, c: nat)
    requires Shape(s) && c < |s.ready| && !s.ready[c]
    ensures |Users(s, t)| < 255
  {
    Smaller(Users(s, t), Below(|s.ready|) - {c});
  }

  lemma AcquireCounted(s: State, c: nat, a: Arg)
    requires Counted(s)
    ensures Counted(Acquire(s, c, a).2)
  {
    var (status, k, e) := Acquire(s, c, a);
    if e != s {
      assert e == State(s.timers[k := Slot(a.p, (s.timers[k].refs + 1) % 256)], s.ready[c := true], s.profiles[c := a.p], s.timerOf[c := k]);
      hide Acquire, FindSlot;
      UsersBounded(s, k, c);
      OneMoreUser(s, e, k, c);
    }
  }

  lemma OneMoreUser(s: State, e: State, k: nat, c: nat)
    requires Shape(s) && Shape(e) && c < |s.ready| && !s.ready[c] && k < TIMERS
    requires e.ready == s.ready[c := true] && e.timerOf == s.timerOf[c := k]
    ensures forall t: nat :: t < TIMERS ==> |Users(e, t)| == |Users(s, t)| + if t == k then 1 else 0
  {
    assert Users(e, k) == Users(s, k) + {c};
    forall t: nat | t < TIMERS && t != k ensures Users(e, t) == Users(s, t) {
    }
  }

  lemma ReleaseCounted(s: State, c: nat)
    requires Counted(s)
    ensures Counted(Release(s, c))
  {
    var e := Release(s, c);
    if c < |s.ready| && s.ready[c] {
      var k := s.timerOf[c];
      assert c in Users(s, k);
      assert Users(e, k) == Users(s, k) - {c};
      forall t: nat | t < TIMERS && t != k ensures Users(e, t) == Users(s, t) {
      }
    }
  }

  lemma SetFreqCounted(s: State, c: nat, freq: nat)
    requires Counted(s)
    ensures Counted(SetFreq(s, c, freq).1)
  {
    var e := SetFreq(s, c, freq).1;
    forall t: nat | t < TIMERS ensures Users(e, t) == Users(s, t) {
    }
    if c < |s.ready| && s.ready[c] {
      assert c in Users(s, s.timerOf[c]);
    }
  }

  /** On every run, also with frequency changes, each timer's count is the number of channels on it. */
  lemma {:induction false} AlwaysCounted(channels: nat, ms: seq<Move>)
    requires channels <= 255
    ensures Counted(Run(channels, ms))
  {
    if |ms| == 0 {
      forall t: nat | t < TIMERS ensures Users(Blank(channels), t) == {} {
      }
    } else {
      AlwaysCounted(channels, ms[..|ms| - 1]);
      StepCounted(Run(channels, ms[..|ms| - 1]), ms[|ms| - 1]);
    }
  }

  lemma StepCounted(s: State, m: Move)
    requires Counted(s)
    ensures Counted(Step(s, m))
  {
    match m {
      case ResetMove =>
        forall t: nat | t < TIMERS ensures Users(Blank(|s.ready|), t) == {} {
        }
      case AcquireMove(c, a) => AcquireCounted(s, c, a);
      case ReleaseMove(c) => ReleaseCounted(s, c);
      case SetFreqMove(c, freq) => SetFreqCounted(s, c, freq);
    }
  }

  /** Releasing a channel that was just acquired restores the router exactly. */
  lemma ReleaseUndoesAcquire(s: State, c: nat, a: Arg)
    requires Counted(s) && c < |s.ready| && !s.ready[c] && Acquire(s, c, a).0.Ok?
    ensures Release(Acquire(s, c, a).2, c) == s
  {
    var (status, k, e) := Acquire(s, c, a);
    UsersBounded(s, k, c);
    var u := Release(e, c);
    assert u.timers == s.timers;
    assert u.ready == s.ready;
    assert u.profiles == s.profiles;
    assert u.timerOf == s.timerOf;
  }

  // ---------- sharing ----------

  /** Every channel runs at its own profile, and no profile occupies two timers. */
  predicate Shared(s: State)
    requires Counted(s)
  {
    && (forall c: nat :: c < |s.ready| && s.ready[c] ==> s.profiles[c] == s.timers[s.timerOf[c]].profile)
    && DistinctLive(s.timers)
  }

  predicate DistinctLive(timers: seq<Slot>) {
    forall t: nat, u: nat :: t < u < |timers| && timers[t].refs > 0 && timers[u].refs > 0 ==> timers[t].profile != timers[u].profile
  }

  /** A frequency change that disturbs nobody: no change, or a timer used by this channel alone and
      no other live timer already at the new profile. */
  predicate Harmless(s: State, m: Move)
    requires Counted(s)
  {
    m.SetFreqMove? && m.c < |s.ready| && s.ready[m.c] && m.freq > 0 ==>
      var t := s.timerOf[m.c];
      m.freq == s.profiles[m.c].freq
      || (s.timers[t].refs == 1 && forall u: nat :: u < TIMERS && u != t ==> !Match(s.timers[u], s.profiles[m.c].(freq := m.freq)))
  }

  lemma Alone(s: State, c: nat, d: nat)
    requires Counted(s) && c < |s.ready| && d < |s.ready| && s.ready[c] && s.ready[d] && c != d
    requires s.timerOf[c] == s.timerOf[d]
    ensures s.timers[s.timerOf[c]].refs > 1
  {
    assert {c, d} <= Users(s, s.timerOf[c]);
    Smaller({c, d}, Users(s, s.timerOf[c]));
  }

  lemma OnlyUser(s: State, c: nat)
    requires Counted(s) && c < |s.ready| && s.ready[c] && s.timers[s.timerOf[c]].refs > 1
    ensures exists d: nat :: d < |s.ready| && d != c && s.ready[d] && s.timerOf[d] == s.timerOf[c]
  {
    var us := Users(s, s.timerOf[c]);
    assert c in us && |us - {c}| == |us| - 1;
    var d :| d in us - {c};
  }

  lemma SetFreqShared(s: State, c: nat, freq: nat)
    requires Counted(s) && Shared(s) && c < |s.ready| && s.ready[c] && freq > 0 && Counted(SetFreq(s, c, freq).1)
    ensures Shared(SetFreq(s, c, freq).1) <==> Harmless(s, SetFreqMove(c, freq))
  {
    var e := SetFreq(s, c, freq).1;
    var t := s.timerOf[c];
    var p := s.profiles[c].(freq := freq);
    assert c in Users(s, t);
    assert e.timers[t].profile == p && e.profiles[c] == p;
    if freq == s.profiles[c].freq {
      assert e.timers == s.timers && e.profiles == s.profiles;
    } else if s.timers[t].refs > 1 {
      OnlyUser(s, c);
      var d: nat :| d < |s.ready| && d != c && s.ready[d] && s.timerOf[d] == t;
      assert e.profiles[d].freq != e.timers[e.timerOf[d]].profile.freq;
    } else if Harmless(s, SetFreqMove(c, freq)) {
      forall d: nat | d < |e.ready| && e.ready[d] ensures e.profiles[d] == e.timers[e.timerOf[d]].profile {
        if d != c && s.timerOf[d] == t {
          Alone(s, c, d);
        }
      }
    } else {
      var u: nat :| u < TIMERS && u != t && Match(s.timers[u], p);
      assert e.timers[u].profile == e.timers[t].profile;
    }
  }

  lemma AcquireShared(s: State, c: nat, a: Arg)
    requires Counted(s) && Shared(s) && Counted(Acquire(s, c, a).2)
    ensures Shared(Acquire(s, c, a).2)
  {
    var (status, k, e) := Acquire(s, c, a);
    if e != s {
      forall d: nat | d < |e.ready| && e.ready[d] ensures e.profiles[d] == e.timers[e.timerOf[d]].profile {
        if d != c {
          assert d in Users(s, s.timerOf[d]);
        }
      }
    }
  }

  lemma ReleaseShared(s: State, c: nat)
    requires Counted(s) && Shared(s) && Counted(Release(s, c))
    ensures Shared(Release(s, c))
  {
    var e := Release(s, c);
    if c < |s.ready| && s.ready[c] {
      assert c in Users(s, s.timerOf[c]);
      forall d: nat | d < |e.ready| && e.ready[d] ensures e.profiles[d] == e.timers[e.timerOf[d]].profile {
        if s.timerOf[d] == s.timerOf[c] {
          Alone(s, c, d);
        }
      }
    }
  }

  lemma StepSharedIff(s: State, m: Move)
    requires Counted(s) && Shared(s)
    ensures Counted(Step(s, m)) && (Shared(Step(s, m)) <==> Harmless(s, m))
  {
    StepCounted(s, m);
    match m {
      case ResetMove =>
      case AcquireMove(c, a) => AcquireShared(s, c, a);
      case ReleaseMove(c) => ReleaseShared(s, c);
      case SetFreqMove(c, freq) =>
        if c < |s.ready| && s.ready[c] && freq > 0 {
          SetFreqShared(s, c, freq);
        }
    }
  }

  predicate SharedAfter(channels: nat, ms: seq<Move>, i: nat)
    requires channels <= 255 && i <= |ms|
  {
    AlwaysCounted(channels, ms[..i]);
    Shared(Run(channels, ms[..i]))
  }

  predicate HarmlessAt(channels: nat, ms: seq<Move>, i: nat)
    requires channels <= 255 && i < |ms|
  {
    AlwaysCounted(channels, ms[..i]);
    Harmless(Run(channels, ms[..i]), ms[i])
  }

  lemma SharedNext(channels: nat, ms: seq<Move>, i: nat)
    requires channels <= 255 && i < |ms| && SharedAfter(channels, ms, i)
    ensures SharedAfter(channels, ms, i + 1) <==> HarmlessAt(channels, ms, i)
  {
    AlwaysCounted(channels, ms[..i]);
    AlwaysCounted(channels, ms[..i + 1]);
    assert ms[..i + 1][..i] == ms[..i];
    StepSharedIff(Run(channels, ms[..i]), ms[i]);
  }

  lemma {:induction false} HarmlessPrefix(channels: nat, ms: seq<Move>, i: nat)
    requires channels <= 255 && i <= |ms| && forall k: nat :: k < i ==> HarmlessAt(channels, ms, k)
    ensures SharedAfter(channels, ms, i)
  {
    if i > 0 {
      HarmlessPrefix(channels, ms, i - 1);
      hide *;
      assert HarmlessAt(channels, ms, i - 1);
      SharedNext(channels, ms, i - 1);
    }
  }

  /** Sharing holds throughout a run if and only if every frequency change in it is harmless; in
      particular on every run of acquires, releases and resets. */
  lemma SharedIff(channels: nat, ms: seq<Move>)
    requires channels <= 255
    ensures (forall i: nat :: i <= |ms| ==> SharedAfter(channels, ms, i))
      <==> (forall i: nat :: i < |ms| ==> HarmlessAt(channels, ms, i))
  {
    hide SharedAfter, HarmlessAt;
    if forall i: nat :: i < |ms| ==> HarmlessAt(channels, ms, i) {
      forall i: nat | i <= |ms| ensures SharedAfter(channels, ms, i) {
        HarmlessPrefix(channels, ms, i);
      }
    } else {
      var i: nat :| i < |ms| && !HarmlessAt(channels, ms, i);
      if SharedAfter(channels, ms, i) {
        SharedNext(channels, ms, i);
        assert !SharedAfter(channels, ms, i + 1);
      }
    }
  }

  // ---------- exhaustion ----------

  function InUse(s: State): set<Profile>
    requires Shape(s)
  {
    set c: nat | c < |s.ready| && s.ready[c] :: s.profiles[c]
  }

  /** The profiles of the first n timers, if all of them are live. */
  function Live(timers: seq<Slot>, n: nat): set<Profile>
    requires n <= |timers|
  {
    if n == 0 then {}
    else if timers[n - 1].refs == 0 then Live(timers, n - 1)
    else Live(timers, n - 1) + {timers[n - 1].profile}
  }

  lemma {:induction false} LiveMembers(timers: seq<Slot>, n: nat)
    requires n <= |timers|
    ensures forall p :: p in Live(timers, n) <==> exists t: nat :: t < n && Match(timers[t], p)
  {
    if n > 0 {
      LiveMembers(timers, n - 1);
      assert timers[n - 1].refs > 0 ==> Match(timers[n - 1], timers[n - 1].profile);
    }
  }

  lemma NewProfile(timers: seq<Slot>, n: nat)
    requires n < |timers| && DistinctLive(timers) && timers[n].refs > 0
    ensures timers[n].profile !in Live(timers, n)
  {
    LiveMembers(timers, n);
  }

  predicate AllLive(timers: seq<Slot>, n: nat)
    requires n <= |timers|
  {
    forall t: nat :: t < n ==> timers[t].refs > 0
  }

  lemma {:induction false} LiveSize(timers: seq<Slot>, n: nat)
    requires n <= |timers| && DistinctLive(timers)
    ensures |Live(timers, n)| <= n
    ensures |Live(timers, n)| == n <==> AllLive(timers, n)
  {
    if n > 0 {
      LiveSize(timers, n - 1);
      assert AllLive(timers, n) <==> AllLive(timers, n - 1) && timers[n - 1].refs > 0;
      hide AllLive;
      if timers[n - 1].refs > 0 {
        NewProfile(timers, n - 1);
      }
    }
  }

  /** The live timers hold exactly the profiles that the ready channels use. */
  lemma InUseIsLive(s: State)
    requires Counted(s) && Shared(s)
    ensures InUse(s) == Live(s.timers, TIMERS)
  {
    LiveMembers(s.timers, TIMERS);
    forall p | p in InUse(s) ensures p in Live(s.timers, TIMERS) {
      var c: nat :| c < |s.ready| && s.ready[c] && s.profiles[c] == p;
      assert c in Users(s, s.timerOf[c]) && Match(s.timers[s.timerOf[c]], p);
    }
    forall p | p in Live(s.timers, TIMERS) ensures p in InUse(s) {
      var t: nat :| t < TIMERS && Match(s.timers[t], p);
      assert Users(s, t) != {};
      var c :| c in Users(s, t);
      assert s.profiles[c] == p;
    }
  }

  /** A free channel is refused a valid profile exactly when every timer is in use at another profile;
      while timers are properly shared, that is when four other profiles are in use. */
  lemma ExhaustedIff(s: State, c: nat, a: Arg)
    requires Counted(s) && c < |s.ready| && !s.ready[c] && ValidProfile(a)
    ensures Acquire(s, c, a).0 == ResourceExhausted <==>
      forall t: nat :: t < TIMERS ==> s.timers[t].refs > 0 && s.timers[t].profile != a.p
    ensures Acquire(s, c, a).0 == ResourceExhausted || Acquire(s, c, a).0 == Ok
    ensures Shared(s) ==> (Acquire(s, c, a).0 == ResourceExhausted <==> |InUse(s)| == TIMERS && a.p !in InUse(s))
  {
    if Shared(s) {
      InUseIsLive(s);
      LiveSize(s.timers, TIMERS);
      LiveMembers(s.timers, TIMERS);
    }
  }

  // ---------- what the calls do ----------

  /** A free channel that gets a valid profile runs on a timer at that profile: one that already was, with one
      more user, or else a free one. Nothing else changes. A ready channel keeps what it has. */
  lemma AcquireExact(s: State, c: nat, a: Arg)
    requires Counted(s)
    ensures var (status, k, e) := Acquire(s, c, a);
      && (status == InvalidArg <==> c >= |s.ready| || !ValidProfile(a))
      && (status == Busy <==> c < |s.ready| && ValidProfile(a) && s.ready[c] && s.profiles[c] != a.p)
      && (status != Ok ==> e == s)
      && (status == Ok && s.ready[c] ==> e == s && s.profiles[c] == a.p && k == s.timerOf[c])
      && (status == Ok && !s.ready[c] ==>
            && k < TIMERS && (forall t: nat :: t < TIMERS && t != k ==> e.timers[t] == s.timers[t])
            && e.timers[k] == Slot(a.p, s.timers[k].refs + 1)
            && (Match(s.timers[k], a.p) || (s.timers[k] == FREE && forall t: nat :: t < TIMERS ==> !Match(s.timers[t], a.p)))
            && e.ready == s.ready[c := true] && e.profiles == s.profiles[c := a.p] && e.timerOf == s.timerOf[c := k])
  {
    var (status, k, e) := Acquire(s, c, a);
    if c < |s.ready| && ValidProfile(a) && !s.ready[c] && k < TIMERS {
      UsersBounded(s, k, c);
    }
  }

  /** Which profiles are valid. */
  lemma ValidIff(p: Profile)
    ensures ValidProfile(Given(p)) <==> 1 <= p.freq && 1 <= p.bits <= 20 && p.clock in {0, 1}
    ensures !ValidProfile(Null)
  {
  }

  /** Releasing a ready channel blanks it and takes one user off its timer, which is freed with the last one. */
  lemma ReleaseExact(s: State, c: nat)
    requires Counted(s)
    ensures var e := Release(s, c);
      if c < |s.ready| && s.ready[c] then
        var k := s.timerOf[c];
        && k < TIMERS && (forall t: nat :: t < TIMERS && t != k ==> e.timers[t] == s.timers[t])
        && s.timers[k].refs > 0 && e.timers[k] == (if s.timers[k].refs == 1 then FREE else Slot(s.timers[k].profile, s.timers[k].refs - 1))
        && e.ready == s.ready[c := false] && e.profiles == s.profiles[c := NO_PROFILE] && e.timerOf == s.timerOf[c := NO_TIMER]
      else e == s
  {
    if c < |s.ready| && s.ready[c] {
      assert c in Users(s, s.timerOf[c]);
    }
  }

  /** A frequency change sets the frequency of the channel and of its timer, and nothing else. */
  lemma SetFreqExact(s: State, c: nat, freq: nat)
    requires Counted(s)
    ensures var (status, e) := SetFreq(s, c, freq);
      && (status == Ok <==> c < |s.ready| && s.ready[c] && freq > 0)
      && (status != Ok ==> status == InvalidArg && e == s)
      && (status == Ok ==>
            && e.ready == s.ready && e.timerOf == s.timerOf && e.profiles == s.profiles[c := Profile(freq, s.profiles[c].bits, s.profiles[c].clock)]
            && var k := s.timerOf[c];
               && k < TIMERS && (forall t: nat :: t < TIMERS && t != k ==> e.timers[t] == s.timers[t])
               && e.timers[k] == Slot(Profile(freq, s.timers[k].profile.bits, s.timers[k].profile.clock), s.timers[k].refs))
  {
  }
}
