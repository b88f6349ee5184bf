/**
  Which calls on the reader-writer lock of src/mutex/mutex.c return. The header of that module says
  that a thread may take the exclusive lock several times. The code keeps no owner, so a thread that
  wants a lock which its own lock excludes waits for itself, and so does everyone its lock excludes;
  every other call can return.
*/
module SharedMutexCalls {
  import opened Wrappers
  import opened SharedMutex

  /** Inside an operation that has not got through yet. */
  predicate Calling(th: Thread) {
    !th.at.Idle? && !th.at.Leave?
  }

  /** What a thread holds keeps the operation waiting. */
  predicate Excludes(op: Op, th: Thread) {
    match op
    case Lock => th.writing > 0 || th.reading > 0
    case LockShared => th.writing > 0
    case _ => false
  }

  predicate WaitsForItself(th: Thread) {
    Calling(th) && Excludes(th.at.op, th)
  }

  /** Some thread that waits for itself excludes the operation of t; it may be t. */
  ghost predicate Barred(s: State, t: nat)
    requires t < |s.threads| && Calling(s.threads[t])
  {
    exists u :: 0 <= u < |s.threads| && WaitsForItself(s.threads[u]) && Excludes(s.threads[t].at.op, s.threads[u])
  }

  /** Some continuation gets the operation of t through. */
  ghost predicate CanReturn(s: State, t: nat) {
    exists events :: CanRun(s, events) && t < |Run(s, events).threads| && Run(s, events).threads[t].at.Leave?
  }

  // ---------------------------------------------------------------- calls that never return

  lemma BarredStep(s: State, e: Event, t: nat, u: nat)
    requires Inv(s) && Enabled(s, e) && t < |s.threads| && u < |s.threads|
    requires Calling(s.threads[t]) && WaitsForItself(s.threads[u]) && Excludes(s.threads[t].at.op, s.threads[u])
    ensures var r := Apply(s, e);
            && |r.threads| == |s.threads| && Calling(r.threads[t]) && r.threads[t].at.op == s.threads[t].at.op
            && WaitsForItself(r.threads[u]) && Excludes(r.threads[t].at.op, r.threads[u])
  {
    hide Writes, Reads, AllOk, InnerOk;
    SumsCover(s.threads, u);
  }

  /** However the run goes on, a barred call does not get through. */
  lemma {:induction false} NeverReturns(s: State, events: seq<Event>, t: nat, u: nat)
    requires Inv(s) && CanRun(s, events) && t < |s.threads| && u < |s.threads|
    requires Calling(s.threads[t]) && WaitsForItself(s.threads[u]) && Excludes(s.threads[t].at.op, s.threads[u])
    ensures t < |Run(s, events).threads| && Calling(Run(s, events).threads[t])
    decreases |events|
  {
    hide Inv, Apply, Enabled, WaitsForItself, Excludes;
    if events != [] {
      StepKeeps(s, events[0]);
      BarredStep(s, events[0], t, u);
      NeverReturns(Apply(s, events[0]), events[1..], t, u);
    }
  }

  // ---------------------------------------------------------------- runs in a row

  lemma RunOne(s: State, e: Event)
    requires Enabled(s, e)
    ensures CanRun(s, [e]) && Run(s, [e]) == Apply(s, e)
  {
    assert [e][1..] == [];
  }

  lemma {:induction false} RunConcat(s: State, a: seq<Event>, b: seq<Event>)
    requires CanRun(s, a) && CanRun(Run(s, a), b)
    ensures CanRun(s, a + b) && Run(s, a + b) == Run(Run(s, a), b)
    decreases |a|
  {
    hide Apply, Enabled;
    if a == [] {
      assert a + b == b;
    } else {
      assert (a + b)[1..] == a[1..] + b;
      RunConcat(Apply(s, a[0]), a[1..], b);
    }
  }

  /** One more event at the end of a run. */
  lemma Extend(s: State, a: seq<Event>, e: Event)
    requires CanRun(s, a) && Enabled(Run(s, a), e)
    ensures CanRun(s, a + [e]) && Run(s, a + [e]) == Apply(Run(s, a), e)
  {
    hide Apply, Enabled, CanRun, Run;
    RunOne(Run(s, a), e);
    RunConcat(s, a, [e]);
  }

  // ---------------------------------------------------------------- an input that shows it

  const LOCK_ONCE: seq<Event> := [Call(0, Lock), Acquire(0), Work(0), Release(0)]

  /** The first thread has taken the exclusive lock and is outside again. */
  lemma Locked(n: nat)
    requires n >= 1
    ensures CanRun(Start(n), LOCK_ONCE)
    ensures Run(Start(n), LOCK_ONCE) == State(None, 1, 0, Start(n).threads[0 := Thread(Idle, 1, 0)])
  {
    hide CanRun, Run;
    var s := Start(n);
    var e: seq<Event> := [];
    assert CanRun(s, e) && Run(s, e) == s by {
      NoEvents(s);
    }
    Extend(s, e, Call(0, Lock));
    Extend(s, e + [Call(0, Lock)], Acquire(0));
    Extend(s, e + [Call(0, Lock)] + [Acquire(0)], Work(0));
    Extend(s, e + [Call(0, Lock)] + [Acquire(0)] + [Work(0)], Release(0));
    assert LOCK_ONCE == e + [Call(0, Lock)] + [Acquire(0)] + [Work(0)] + [Release(0)];
    assert Run(s, LOCK_ONCE).threads == s.threads[0 := Thread(Idle, 1, 0)];
  }

  lemma NoEvents(s: State)
    ensures CanRun(s, []) && Run(s, []) == s
  {
  }

  /** A thread that has the exclusive lock asks for it again: the call never returns. */
  lemma LockTwice(n: nat)
    requires n >= 1
    ensures var events := LOCK_ONCE + [Call(0, Lock)];
            && CanRun(Start(n), events) && |Run(Start(n), events).threads| == n
            && WaitsForItself(Run(Start(n), events).threads[0]) && !CanReturn(Run(Start(n), events), 0)
  {
    hide CanRun, Run, CanReturn;
    var events := LOCK_ONCE + [Call(0, Lock)];
    Locked(n);
    Extend(Start(n), LOCK_ONCE, Call(0, Lock));
    StartOk(n);
    RunKeeps(Start(n), events);
    ReturnsExactly(Run(Start(n), events), 0);
  }

  /** And a bystander that holds nothing and wants to read never returns either. */
  lemma Bystander(n: nat)
    requires n >= 2
    ensures var events := LOCK_ONCE + [Call(0, Lock)] + [Call(1, LockShared)];
            && CanRun(Start(n), events) && |Run(Start(n), events).threads| == n
            && !WaitsForItself(Run(Start(n), events).threads[1]) && !CanReturn(Run(Start(n), events), 1)
  {
    hide CanRun, Run, CanReturn;
    var events := LOCK_ONCE + [Call(0, Lock)] + [Call(1, LockShared)];
    LockTwice(n);
    Locked(n);
    Extend(Start(n), LOCK_ONCE, Call(0, Lock));
    Extend(Start(n), LOCK_ONCE + [Call(0, Lock)], Call(1, LockShared));
    StartOk(n);
    RunKeeps(Start(n), events);
    var s := Run(Start(n), events);
    assert WaitsForItself(s.threads[0]) && Excludes(LockShared, s.threads[0]);
    ReturnsExactly(s, 1);
  }

  // ---------------------------------------------------------------- the measure

  /** A step of an operation under way, or the call to give a lock back. */
  predicate Useful(e: Event) {
    e.Acquire? || e.Work? || e.Release? || (e.Call? && (e.op == Unlock || e.op == UnlockShared))
  }

  ghost predicate AllUseful(events: seq<Event>) {
    forall i | 0 <= i < |events| :: Useful(events[i])
  }

  /** On the way to a shared lock. */
  predicate Asking(th: Thread) {
    Calling(th) && (th.at.op == LockShared || th.at.op == TryLockShared)
  }

  function Askers(ts: seq<Thread>): nat {
    if ts == [] then 0 else (if Asking(ts[0]) then 1 else 0) + Askers(ts[1..])
  }

  /** Locks held and, counted twice, shared locks that may still be taken. */
  function Left(s: State): int {
    s.exclusive + s.shared + 2 * Askers(s.threads)
  }

  lemma {:induction false} AskersUpdate(ts: seq<Thread>, t: nat, th: Thread)
    requires t < |ts|
    ensures Askers(ts[t := th]) == Askers(ts) - (if Asking(ts[t]) then 1 else 0) + (if Asking(th) then 1 else 0)
    decreases |ts|
  {
    if t > 0 {
      assert ts[t := th][1..] == ts[1..][t - 1 := th] && ts[1..][t - 1] == ts[t];
      AskersUpdate(ts[1..], t - 1, th);
    } else {
      assert ts[t := th][1..] == ts[1..];
    }
  }

  lemma {:induction false} AskersBroadcast(ts: seq<Thread>)
    ensures Askers(Broadcast(ts)) == Askers(ts)
    decreases |ts|
  {
    if ts != [] {
      assert Broadcast(ts)[1..] == Broadcast(ts[1..]);
      AskersBroadcast(ts[1..]);
    }
  }

  // ---------------------------------------------------------------- one thread takes its turn

  /** Every thread but u is as before, except that it may have been woken. */
  ghost predicate OthersKept(s: State, r: State, u: nat) {
    && |r.threads| == |s.threads|
    && forall v | 0 <= v < |s.threads| && v != u :: r.threads[v] == s.threads[v] || r.threads[v] == WakeOne(s.threads[v])
  }

  /** What thread u has after the critical section of its operation, when it does not have to wait. */
  function Through(th: Thread, op: Op, exclusive: int): Thread {
    match op
    case Lock => th.(at := Leave(op), writing := th.writing + 1)
    case LockShared => th.(at := Leave(op), reading := th.reading + 1)
    case TryLockShared => th.(at := Leave(op), reading := th.reading + if exclusive == 0 then 1 else 0)
    case Unlock => th.(at := Leave(op), writing := Less(th.writing))
    case UnlockShared => th.(at := Leave(op), reading := Less(th.reading))
  }

  /** The critical section of a thread that does not have to wait. */
  lemma GetsThrough(s: State, u: nat)
    requires Inv(s) && u < |s.threads| && s.threads[u].at.Inside?
    requires !Blocked(s.threads[u].at.op, s.exclusive, s.shared)
    ensures var op, r := s.threads[u].at.op, Apply(s, Work(u));
            && Inv(r) && OthersKept(s, r, u) && r.inner == s.inner
            && r.threads[u] == Through(s.threads[u], op, s.exclusive)
            && (op == Unlock || op == UnlockShared ==> Left(r) == Left(s) - 1)
            && (Asking(s.threads[u]) ==> Left(r) < Left(s))
  {
    hide Writes, Reads, AllOk, InnerOk;
    StepKeeps(s, Work(u));
    OneOk(s.threads, u, s.exclusive, s.shared);
    SumsCover(s.threads, u);
    var th := Through(s.threads[u], s.threads[u].at.op, s.exclusive);
    AskersUpdate(s.threads, u, th);
    AskersBroadcast(s.threads[u := th]);
  }

  lemma Acquired(s: State, u: nat)
    requires Inv(s) && u < |s.threads| && s.inner == None && (s.threads[u].at.Enter? || s.threads[u].at.Woken?)
    ensures Enabled(s, Acquire(u))
    ensures var r := Apply(s, Acquire(u));
            && Inv(r) && OthersKept(s, r, u) && Left(r) == Left(s) && r.exclusive == s.exclusive && r.shared == s.shared
            && r.threads[u] == s.threads[u].(at := Inside(s.threads[u].at.op))
  {
    hide Inv, Writes, Reads, Critical;
    StepKeeps(s, Acquire(u));
    AskersUpdate(s.threads, u, s.threads[u].(at := Inside(s.threads[u].at.op)));
  }

  lemma Released(s: State, u: nat)
    requires Inv(s) && u < |s.threads| && s.threads[u].at.Leave?
    ensures Enabled(s, Release(u))
    ensures var r := Apply(s, Release(u));
            && Inv(r) && OthersKept(s, r, u) && Left(r) == Left(s) && r.inner == None
            && r.threads[u] == s.threads[u].(at := Idle)
  {
    hide Inv, Writes, Reads, Critical;
    StepKeeps(s, Release(u));
    AskersUpdate(s.threads, u, s.threads[u].(at := Idle));
  }

  lemma KeptTwice(s: State, m: State, r: State, u: nat)
    requires OthersKept(s, m, u) && OthersKept(m, r, u)
    ensures OthersKept(s, r, u)
  {
  }

  /** A whole turn: in, through and out again. */
  lemma TakeTurn(s: State, u: nat) returns (events: seq<Event>, r: State)
    requires Inv(s) && u < |s.threads| && s.inner == None && (s.threads[u].at.Enter? || s.threads[u].at.Woken?)
    requires !Blocked(s.threads[u].at.op, s.exclusive, s.shared)
    requires s.threads[u].at.op == Unlock || s.threads[u].at.op == UnlockShared || Asking(s.threads[u])
    ensures CanRun(s, events) && AllUseful(events) && r == Run(s, events)
    ensures Inv(r) && OthersKept(s, r, u) && r.inner == None && r.threads[u].at.Idle? && Left(r) < Left(s)
  {
    hide Inv, Apply, Enabled, CanRun, Run, OthersKept, Left, Blocked;
    Acquired(s, u);
    var a := Apply(s, Acquire(u));
    KeptSize(s, a, u);
    WorkEnabled(a, u);
    GetsThrough(a, u);
    var b := Apply(a, Work(u));
    KeptSize(a, b, u);
    Released(b, u);
    r := Apply(b, Release(u));
    KeptSize(b, r, u);
    RunOne(s, Acquire(u));
    Extend(s, [Acquire(u)], Work(u));
    Extend(s, [Acquire(u)] + [Work(u)], Release(u));
    events := [Acquire(u)] + [Work(u)] + [Release(u)];
    KeptTwice(s, a, b, u);
    KeptTwice(s, b, r, u);
  }

  lemma WorkEnabled(s: State, u: nat)
    requires u < |s.threads| && s.threads[u].at.Inside?
    ensures Enabled(s, Work(u))
  {
  }

  // ---------------------------------------------------------------- calls that can return

  /** Another thread's turn does not bar t, as long as that thread does not come to wait for itself. */
  lemma StillFree(s: State, r: State, t: nat, u: nat)
    requires t < |s.threads| && u < |s.threads| && t != u && OthersKept(s, r, u)
    requires Calling(s.threads[t]) && !Barred(s, t)
    requires WaitsForItself(r.threads[u]) ==> WaitsForItself(s.threads[u])
    requires WaitsForItself(r.threads[u]) ==> r.threads[u].writing == s.threads[u].writing && r.threads[u].reading == s.threads[u].reading
    ensures Calling(r.threads[t]) && r.threads[t].at.op == s.threads[t].at.op && !Barred(r, t)
    ensures s.threads[t].at.Inside? ==> r.threads[t].at.Inside?
  {
    forall v | 0 <= v < |r.threads|
      ensures !(WaitsForItself(r.threads[v]) && Excludes(r.threads[t].at.op, r.threads[v]))
    {
      assert !(WaitsForItself(s.threads[v]) && Excludes(s.threads[t].at.op, s.threads[v]));
    }
  }

  /** Some thread that is not t has the lock that keeps t waiting. */
  lemma Culprit(s: State, t: nat) returns (u: nat)
    requires Inv(s) && t < |s.threads| && Calling(s.threads[t]) && !Barred(s, t)
    requires Blocked(s.threads[t].at.op, s.exclusive, s.shared)
    ensures u < |s.threads| && u != t && Excludes(s.threads[t].at.op, s.threads[u]) && !WaitsForItself(s.threads[u])
  {
    hide Writes, Reads, AllOk, InnerOk;
    SumsHolder(s.threads);
    if s.exclusive > 0 {
      u :| 0 <= u < |s.threads| && s.threads[u].writing > 0;
    } else {
      u :| 0 <= u < |s.threads| && s.threads[u].reading > 0;
    }
    assert Excludes(s.threads[t].at.op, s.threads[u]);
  }

  /** A holder in the middle of an operation does not have to wait, unless it is for itself. */
  lemma HolderReady(s: State, u: nat)
    requires Inv(s) && u < |s.threads| && s.inner == None && !s.threads[u].at.Idle? && !WaitsForItself(s.threads[u])
    requires s.threads[u].writing > 0 || s.threads[u].reading > 0
    ensures s.threads[u].at.Enter? || s.threads[u].at.Woken?
    ensures !Blocked(s.threads[u].at.op, s.exclusive, s.shared)
    ensures s.threads[u].at.op == Unlock || s.threads[u].at.op == UnlockShared || Asking(s.threads[u])
  {
    hide Writes, Reads, AllOk, InnerOk;
    OneOk(s.threads, u, s.exclusive, s.shared);
    InnerHolder(s.inner, s.threads, u);
    SumsCover(s.threads, u);
  }

  /** A holder that is outside calls to give a lock back. */
  lemma CallsBack(s: State, u: nat) returns (e: Event)
    requires Inv(s) && u < |s.threads| && s.inner == None && s.threads[u].at.Idle?
    requires s.threads[u].writing > 0 || s.threads[u].reading > 0
    ensures Enabled(s, e) && Useful(e)
    ensures var r := Apply(s, e);
            && Inv(r) && OthersKept(s, r, u) && Left(r) == Left(s) && r.inner == None && r.threads[u].at.Enter?
            && (r.threads[u].at.op == Unlock || r.threads[u].at.op == UnlockShared)
            && !Blocked(r.threads[u].at.op, r.exclusive, r.shared)
  {
    hide Writes, Reads, AllOk, InnerOk;
    e := if s.threads[u].writing > 0 then Call(u, Unlock) else Call(u, UnlockShared);
    StepKeeps(s, e);
    AskersUpdate(s.threads, u, s.threads[u].(at := Enter(e.op)));
  }

  /** One lock fewer in the way of t. */
  lemma Clear(s: State, t: nat) returns (events: seq<Event>, r: State)
    requires Inv(s) && s.inner == None && t < |s.threads| && Calling(s.threads[t]) && !Barred(s, t)
    requires Blocked(s.threads[t].at.op, s.exclusive, s.shared)
    ensures CanRun(s, events) && AllUseful(events) && r == Run(s, events)
    ensures Inv(r) && r.inner == None && |r.threads| == |s.threads| && Left(r) < Left(s)
    ensures Calling(r.threads[t]) && r.threads[t].at.op == s.threads[t].at.op && !Barred(r, t)
  {
    hide Inv, Apply, Enabled, CanRun, Run, OthersKept, Left, Blocked, Barred;
    var u := Culprit(s, t);
    if s.threads[u].at.Idle? {
      var e := CallsBack(s, u);
      var a := Apply(s, e);
      KeptSize(s, a, u);
      var more;
      more, r := TakeTurn(a, u);
      RunOne(s, e);
      RunConcat(s, [e], more);
      events := [e] + more;
      KeptTwice(s, a, r, u);
    } else {
      HolderReady(s, u);
      events, r := TakeTurn(s, u);
    }
    StillFree(s, r, t, u);
    KeptSize(s, r, u);
  }

  lemma KeptSize(s: State, r: State, u: nat)
    requires OthersKept(s, r, u)
    ensures |r.threads| == |s.threads|
  {
  }

  lemma LeftPositive(s: State)
    requires Inv(s)
    ensures Left(s) >= 0
  {
    hide Writes, Reads, AllOk, InnerOk, Askers;
  }

  /** With the inner mutex free: clear the way for t, then let it through. */
  lemma {:induction false} Drain(s: State, t: nat) returns (events: seq<Event>)
    requires Inv(s) && s.inner == None && t < |s.threads| && Calling(s.threads[t]) && !Barred(s, t)
    ensures CanRun(s, events) && AllUseful(events)
    ensures t < |Run(s, events).threads| && Run(s, events).threads[t].at.Leave?
    decreases Left(s)
  {
    hide Inv, Apply, Enabled, CanRun, Run, OthersKept, Left, Blocked, Barred;
    LeftPositive(s);
    if Blocked(s.threads[t].at.op, s.exclusive, s.shared) {
      var first, r := Clear(s, t);
      LeftPositive(r);
      var more := Drain(r, t);
      RunConcat(s, first, more);
      events := first + more;
    } else {
      NotAsleep(s, t);
      Acquired(s, t);
      var a := Apply(s, Acquire(t));
      KeptSize(s, a, t);
      WorkEnabled(a, t);
      GetsThrough(a, t);
      KeptSize(a, Apply(a, Work(t)), t);
      RunOne(s, Acquire(t));
      Extend(s, [Acquire(t)], Work(t));
      events := [Acquire(t)] + [Work(t)];
    }
  }

  lemma NotAsleep(s: State, t: nat)
    requires Inv(s) && s.inner == None && t < |s.threads| && Calling(s.threads[t])
    requires !Blocked(s.threads[t].at.op, s.exclusive, s.shared)
    ensures s.threads[t].at.Enter? || s.threads[t].at.Woken?
  {
    hide Writes, Reads, AllOk, InnerOk;
    OneOk(s.threads, t, s.exclusive, s.shared);
    InnerHolder(s.inner, s.threads, t);
  }

  /** A thread inside its critical section that has to wait goes to sleep. */
  lemma FallsAsleep(s: State, v: nat)
    requires Inv(s) && v < |s.threads| && s.threads[v].at.Inside?
    requires Blocked(s.threads[v].at.op, s.exclusive, s.shared)
    ensures var r := Apply(s, Work(v));
            && Inv(r) && OthersKept(s, r, v) && r.inner == None
            && r.threads[v] == s.threads[v].(at := Asleep(s.threads[v].at.op))
  {
    hide Writes, Reads, AllOk, InnerOk;
    StepKeeps(s, Work(v));
  }

  /** Whoever has the inner mutex gives it up, and t is no worse off, or through. */
  lemma Settle(s: State, v: nat, t: nat) returns (events: seq<Event>, r: State)
    requires Inv(s) && s.inner == Some(v) && v < |s.threads| && t < |s.threads| && Calling(s.threads[t]) && !Barred(s, t)
    ensures CanRun(s, events) && AllUseful(events) && r == Run(s, events) && |r.threads| == |s.threads|
    ensures r.threads[t].at.Leave? || (Inv(r) && r.inner == None && Calling(r.threads[t]) && !Barred(r, t))
  {
    hide Inv, Apply, Enabled, CanRun, Run, OthersKept, Left, Blocked, Barred;
    Holder(s, v);
    if s.threads[v].at.Leave? {
      Released(s, v);
      r := Apply(s, Release(v));
      events := [Release(v)];
      RunOne(s, Release(v));
      StillFree(s, r, t, v);
      KeptSize(s, r, v);
    } else {
      WorkEnabled(s, v);
      RunOne(s, Work(v));
      if Blocked(s.threads[v].at.op, s.exclusive, s.shared) {
        FallsAsleep(s, v);
        r := Apply(s, Work(v));
        events := [Work(v)];
        KeptSize(s, r, v);
        if v == t {
          SelfFree(s, r, t);
        } else {
          StillFree(s, r, t, v);
        }
      } else {
        events, r := SettleThrough(s, v, t);
      }
    }
  }

  lemma Holder(s: State, v: nat)
    requires Inv(s) && s.inner == Some(v)
    ensures v < |s.threads| && HoldsInner(s.threads[v])
  {
  }

  /** t itself going to sleep bars nothing. */
  lemma SelfFree(s: State, r: State, t: nat)
    requires t < |s.threads| && OthersKept(s, r, t) && Calling(s.threads[t]) && !Barred(s, t)
    requires r.threads[t] == s.threads[t].(at := Asleep(s.threads[t].at.op))
    ensures !Barred(r, t)
  {
    forall v | 0 <= v < |r.threads|
      ensures !(WaitsForItself(r.threads[v]) && Excludes(r.threads[t].at.op, r.threads[v]))
    {
      assert !(WaitsForItself(s.threads[v]) && Excludes(s.threads[t].at.op, s.threads[v]));
    }
  }

  lemma SettleThrough(s: State, v: nat, t: nat) returns (events: seq<Event>, r: State)
    requires Inv(s) && v < |s.threads| && t < |s.threads| && Calling(s.threads[t]) && !Barred(s, t)
    requires s.threads[v].at.Inside? && !Blocked(s.threads[v].at.op, s.exclusive, s.shared)
    ensures CanRun(s, events) && AllUseful(events) && r == Run(s, events) && |r.threads| == |s.threads|
    ensures r.threads[t].at.Leave? || (Inv(r) && r.inner == None && Calling(r.threads[t]) && !Barred(r, t))
  {
    hide Inv, Apply, Enabled, CanRun, Run, OthersKept, Left, Blocked, Barred;
    WorkEnabled(s, v);
    RunOne(s, Work(v));
    GetsThrough(s, v);
    var a := Apply(s, Work(v));
    KeptSize(s, a, v);
    if v == t {
      events, r := [Work(v)], a;
    } else {
      Released(a, v);
      r := Apply(a, Release(v));
      Extend(s, [Work(v)], Release(v));
      events := [Work(v)] + [Release(v)];
      KeptTwice(s, a, r, v);
      KeptSize(s, r, v);
      StillFree(s, r, t, v);
    }
  }

  /** A call that is not barred returns, after useful steps only: nobody has to ask for anything new. */
  lemma GetsHome(s: State, t: nat) returns (events: seq<Event>)
    requires Inv(s) && t < |s.threads| && Calling(s.threads[t]) && !Barred(s, t)
    ensures CanRun(s, events) && AllUseful(events)
    ensures t < |Run(s, events).threads| && Run(s, events).threads[t].at.Leave?
  {
    hide Inv, Apply, Enabled, CanRun, Run, OthersKept, Left, Blocked, Barred;
    if s.inner.None? {
      events := Drain(s, t);
    } else {
      Holder(s, s.inner.value);
      var first, r := Settle(s, s.inner.value, t);
      if r.threads[t].at.Leave? {
        events := first;
      } else {
        var more := Drain(r, t);
        RunConcat(s, first, more);
        events := first + more;
      }
    }
  }

  /** Exactly the calls that no self-waiting thread excludes can return. */
  lemma ReturnsExactly(s: State, t: nat)
    requires Inv(s) && t < |s.threads| && Calling(s.threads[t])
    ensures CanReturn(s, t) <==> !Barred(s, t)
  {
    hide Inv, CanRun, Run, Excludes, WaitsForItself;
    if Barred(s, t) {
      var u :| 0 <= u < |s.threads| && WaitsForItself(s.threads[u]) && Excludes(s.threads[t].at.op, s.threads[u]);
      forall events | CanRun(s, events)
        ensures t < |Run(s, events).threads| && Calling(Run(s, events).threads[t])
      {
        NeverReturns(s, events, t, u);
      }
    } else {
      var events := GetsHome(s, t);
    }
  }
}
