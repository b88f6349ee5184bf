/**
  The reader-writer lock of src/mutex/mutex.c as a protocol: any number of threads, each at a point
  of one of the five operations, taking turns in every possible order. Waiting on the condition
  variable gives up the inner mutex; a sleeper may also wake for no reason.
*/
module SharedMutex {
  import opened Wrappers

  datatype Op = Lock | Unlock | LockShared | UnlockShared | TryLockShared

  /**
    Where a thread is: outside, waiting for the inner mutex, inside with the inner mutex, asleep on
    the condition variable, woken and waiting for the inner mutex again, or about to give it up.
  */
  datatype Point = Idle | Enter(op: Op) | Inside(op: Op) | Asleep(op: Op) | Woken(op: Op) | Leave(op: Op)

  /** A thread and the exclusive and shared locks it holds. */
  datatype Thread = Thread(at: Point, writing: nat, reading: nat)

  datatype State = State(inner: Option<nat>, exclusive: int, shared: int, threads: seq<Thread>)

  datatype Event = Call(t: nat, op: Op) | Acquire(t: nat) | Work(t: nat) | Release(t: nat) | Spurious(t: nat)

  // ---------------------------------------------------------------- steps

  /** The loop conditions of the two operations that wait. */
  predicate Blocked(op: Op, exclusive: int, shared: int) {
    match op
    case Lock => shared > 0 || exclusive > 0
    case LockShared => exclusive > 0
    case _ => false
  }

  function WakeOne(th: Thread): Thread {
    if th.at.Asleep? then th.(at := Woken(th.at.op)) else th
  }

  /** pthread_cond_broadcast. */
  function Broadcast(ts: seq<Thread>): seq<Thread> {
    seq(|ts|, i requires 0 <= i < |ts| => WakeOne(ts[i]))
  }

  function Put(s: State, t: nat, th: Thread): State
    requires t < |s.threads|
  {
    s.(threads := s.threads[t := th])
  }

  /** A thread only releases what it holds. */
  predicate MayCall(th: Thread, op: Op) {
    th.at == Idle && (op == Unlock ==> th.writing > 0) && (op == UnlockShared ==> th.reading > 0)
  }

  predicate Enabled(s: State, e: Event) {
    e.t < |s.threads| &&
    var th := s.threads[e.t];
    match e
    case Call(_, op) => MayCall(th, op)
    case Acquire(_) => (th.at.Enter? || th.at.Woken?) && s.inner == None
    case Work(_) => th.at.Inside?
    case Release(_) => th.at.Leave?
    case Spurious(_) => th.at.Asleep?
  }

  /** The critical section of each operation, run while holding the inner mutex. */
  function Critical(s: State, t: nat, op: Op): State
    requires t < |s.threads|
  {
    var th := s.threads[t];
    match op
    case Lock =>
      if Blocked(Lock, s.exclusive, s.shared) then Put(s, t, th.(at := Asleep(Lock))).(inner := None)
      else Put(s, t, th.(at := Leave(Lock), writing := th.writing + 1)).(exclusive := s.exclusive + 1)
    case LockShared =>
      if Blocked(LockShared, s.exclusive, s.shared) then Put(s, t, th.(at := Asleep(LockShared))).(inner := None)
      else Put(s, t, th.(at := Leave(LockShared), reading := th.reading + 1)).(shared := s.shared + 1)
    case TryLockShared =>
      if s.exclusive == 0 then Put(s, t, th.(at := Leave(TryLockShared), reading := th.reading + 1)).(shared := s.shared + 1)
      else Put(s, t, th.(at := Leave(TryLockShared)))
    case Unlock =>
      var left := s.exclusive - 1;
      var r := Put(s, t, th.(at := Leave(Unlock), writing := Less(th.writing))).(exclusive := left);
      if left == 0 then r.(threads := Broadcast(r.threads)) else r
    case UnlockShared =>
      var left := if s.shared - 1 < 0 then 0 else s.shared - 1;
      var r := Put(s, t, th.(at := Leave(UnlockShared), reading := Less(th.reading))).(shared := left);
      if left == 0 then r.(threads := Broadcast(r.threads)) else r
  }

  function Less(n: nat): nat {
    if n == 0 then 0 else n - 1
  }

  function Apply(s: State, e: Event): State
    requires Enabled(s, e)
  {
    var th := s.threads[e.t];
    match e
    case Call(t, op) => Put(s, t, th.(at := Enter(op)))
    case Acquire(t) => Put(s, t, th.(at := Inside(th.at.op))).(inner := Some(t))
    case Work(t) => Critical(s, t, th.at.op)
    case Release(t) => Put(s, t, th.(at := Idle)).(inner := None)
    case Spurious(t) => Put(s, t, WakeOne(th))
  }

  /** A run: events that are each possible when they happen. */
  predicate CanRun(s: State, events: seq<Event>)
    decreases |events|
  {
    events == [] || (Enabled(s, events[0]) && CanRun(Apply(s, events[0]), events[1..]))
  }

  function Run(s: State, events: seq<Event>): State
    requires CanRun(s, events)
    decreases |events|
  {
    if events == [] then s else Run(Apply(s, events[0]), events[1..])
  }

  /** latte_shared_mutex_new, with n threads that have not called anything. */
  function Start(n: nat): State {
    State(None, 0, 0, seq(n, _ => Thread(Idle, 0, 0)))
  }

  // ---------------------------------------------------------------- the invariant

  function Writes(ts: seq<Thread>): nat {
    if ts == [] then 0 else ts[0].writing + Writes(ts[1..])
  }

  function Reads(ts: seq<Thread>): nat {
    if ts == [] then 0 else ts[0].reading + Reads(ts[1..])
  }

  predicate HoldsInner(th: Thread) {
    th.at.Inside? || th.at.Leave?
  }

  /** One thread is in order: what it releases it holds, and if it sleeps there is something to wait for. */
  predicate ThreadOk(th: Thread, exclusive: int, shared: int) {
    && ((th.at.Enter? || th.at.Inside?) && th.at.op == Unlock ==> th.writing > 0)
    && ((th.at.Enter? || th.at.Inside?) && th.at.op == UnlockShared ==> th.reading > 0)
    && ((th.at.Asleep? || th.at.Woken?) ==> th.at.op == Lock || th.at.op == LockShared)
    && (th.at.Asleep? ==> Blocked(th.at.op, exclusive, shared))
  }

  ghost predicate AllOk(ts: seq<Thread>, exclusive: int, shared: int) {
    forall t | 0 <= t < |ts| :: ThreadOk(ts[t], exclusive, shared)
  }

  /** The inner mutex is held by exactly the thread between taking it and giving it up. */
  ghost predicate InnerOk(inner: Option<nat>, ts: seq<Thread>) {
    && (inner.Some? ==> inner.value < |ts|)
    && (forall t | 0 <= t < |ts| :: HoldsInner(ts[t]) <==> inner == Some(t))
  }

  ghost predicate Inv(s: State) {
    && InnerOk(s.inner, s.threads) && AllOk(s.threads, s.exclusive, s.shared)
    && s.exclusive == Writes(s.threads) && s.shared == Reads(s.threads)
    && s.exclusive <= 1 && (s.exclusive == 1 ==> s.shared == 0)
  }

  // ---------------------------------------------------------------- sums

  lemma {:induction false} SumsUpdate(ts: seq<Thread>, t: nat, th: Thread)
    requires t < |ts|
    ensures Writes(ts[t := th]) == Writes(ts) - ts[t].writing + th.writing
    ensures Reads(ts[t := th]) == Reads(ts) - ts[t].reading + th.reading
    decreases |ts|
  {
    if t > 0 {
      assert ts[t := th][1..] == ts[1..][t - 1 := th] && ts[1..][t - 1] == ts[t];
      SumsUpdate(ts[1..], t - 1, th);
    } else {
      assert ts[t := th][1..] == ts[1..];
    }
  }

  lemma {:induction false} SumsCover(ts: seq<Thread>, t: nat)
    requires t < |ts|
    ensures ts[t].writing <= Writes(ts) && ts[t].reading <= Reads(ts)
    decreases |ts|
  {
    if t > 0 {
      assert ts[1..][t - 1] == ts[t];
      SumsCover(ts[1..], t - 1);
    }
  }

  /** Two threads hold no more than all threads together. */
  lemma {:induction false} SumsCoverTwo(ts: seq<Thread>, t: nat, u: nat)
    requires t < u < |ts|
    ensures ts[t].writing + ts[u].writing <= Writes(ts)
    decreases |ts|
  {
    assert ts[1..][u - 1] == ts[u];
    if t > 0 {
      assert ts[1..][t - 1] == ts[t];
      SumsCoverTwo(ts[1..], t - 1, u - 1);
    } else {
      SumsCover(ts[1..], u - 1);
    }
  }

  lemma {:induction false} SumsHolder(ts: seq<Thread>)
    ensures Writes(ts) > 0 ==> exists t :: 0 <= t < |ts| && ts[t].writing > 0
    ensures Reads(ts) > 0 ==> exists t :: 0 <= t < |ts| && ts[t].reading > 0
    decreases |ts|
  {
    if ts != [] {
      SumsHolder(ts[1..]);
      assert forall t | 0 <= t < |ts[1..]| :: ts[1..][t] == ts[t + 1];
      assert ts[0] in ts;
    }
  }

  lemma {:induction false} SumsBroadcast(ts: seq<Thread>)
    ensures Writes(Broadcast(ts)) == Writes(ts) && Reads(Broadcast(ts)) == Reads(ts)
    decreases |ts|
  {
    if ts != [] {
      assert Broadcast(ts)[1..] == Broadcast(ts[1..]);
      SumsBroadcast(ts[1..]);
    }
  }

  lemma {:induction false} SumsNone(n: nat)
    ensures Writes(Start(n).threads) == 0 && Reads(Start(n).threads) == 0
    decreases n
  {
    if n > 0 {
      assert Start(n).threads[1..] == Start(n - 1).threads;
      SumsNone(n - 1);
    }
  }

  // ---------------------------------------------------------------- every step keeps the invariant

  lemma InnerUpdate(was: Option<nat>, ts: seq<Thread>, t: nat, th: Thread, inner: Option<nat>)
    requires InnerOk(was, ts) && t < |ts| && (was == None || was == Some(t))
    requires inner == if HoldsInner(th) then Some(t) else None
    ensures InnerOk(inner, ts[t := th])
  {
  }

  lemma InnerBroadcast(inner: Option<nat>, ts: seq<Thread>)
    requires InnerOk(inner, ts)
    ensures InnerOk(inner, Broadcast(ts))
  {
  }

  /** Whoever sleeps goes on having a reason to, as long as the counts do not drop. */
  lemma OkUpdate(ts: seq<Thread>, t: nat, th: Thread, ex: int, sh: int, ex2: int, sh2: int)
    requires AllOk(ts, ex, sh) && t < |ts| && ThreadOk(th, ex2, sh2)
    requires Blocked(Lock, ex, sh) ==> Blocked(Lock, ex2, sh2)
    requires Blocked(LockShared, ex, sh) ==> Blocked(LockShared, ex2, sh2)
    ensures AllOk(ts[t := th], ex2, sh2)
  {
  }

  /** After a broadcast nobody sleeps, so the counts no longer matter. */
  lemma OkBroadcast(ts: seq<Thread>, t: nat, th: Thread, ex: int, sh: int, ex2: int, sh2: int)
    requires AllOk(ts, ex, sh) && t < |ts| && th.at.Leave?
    ensures AllOk(Broadcast(ts[t := th]), ex2, sh2)
  {
  }

  lemma KeepsCall(s: State, e: Event)
    requires Inv(s) && Enabled(s, e) && !e.Work?
    ensures Inv(Apply(s, e))
  {
    hide Writes, Reads, AllOk, InnerOk;
    var th := s.threads[e.t];
    var r := Apply(s, e);
    var th2 := r.threads[e.t];
    SumsUpdate(s.threads, e.t, th2);
    OneOk(s.threads, e.t, s.exclusive, s.shared);
    OkUpdate(s.threads, e.t, th2, s.exclusive, s.shared, s.exclusive, s.shared);
    if e.Acquire? || e.Release? {
      InnerHolder(s.inner, s.threads, e.t);
      InnerUpdate(s.inner, s.threads, e.t, th2, r.inner);
    } else {
      InnerAside(s.inner, s.threads, e.t, th2);
    }
  }

  lemma OneOk(ts: seq<Thread>, t: nat, ex: int, sh: int)
    requires AllOk(ts, ex, sh) && t < |ts|
    ensures ThreadOk(ts[t], ex, sh)
  {
  }

  lemma InnerHolder(inner: Option<nat>, ts: seq<Thread>, t: nat)
    requires InnerOk(inner, ts) && t < |ts|
    ensures HoldsInner(ts[t]) <==> inner == Some(t)
  {
  }

  lemma InnerAside(inner: Option<nat>, ts: seq<Thread>, t: nat, th: Thread)
    requires InnerOk(inner, ts) && t < |ts| && !HoldsInner(th) && !HoldsInner(ts[t])
    ensures InnerOk(inner, ts[t := th])
  {
  }

  lemma KeepsWork(s: State, t: nat)
    requires Inv(s) && t < |s.threads| && s.threads[t].at.Inside?
    ensures Inv(Critical(s, t, s.threads[t].at.op))
  {
    hide Writes, Reads, AllOk, InnerOk;
    var th := s.threads[t];
    var r := Critical(s, t, th.at.op);
    InnerHolder(s.inner, s.threads, t);
    OneOk(s.threads, t, s.exclusive, s.shared);
    SumsCover(s.threads, t);
    match th.at.op
    case Unlock =>
      var th2 := th.(at := Leave(Unlock), writing := Less(th.writing));
      SumsUpdate(s.threads, t, th2);
      SumsBroadcast(s.threads[t := th2]);
      OkBroadcast(s.threads, t, th2, s.exclusive, s.shared, r.exclusive, r.shared);
      InnerUpdate(s.inner, s.threads, t, th2, s.inner);
      InnerBroadcast(s.inner, s.threads[t := th2]);
    case UnlockShared =>
      var th2 := th.(at := Leave(UnlockShared), reading := Less(th.reading));
      SumsUpdate(s.threads, t, th2);
      SumsBroadcast(s.threads[t := th2]);
      InnerUpdate(s.inner, s.threads, t, th2, s.inner);
      InnerBroadcast(s.inner, s.threads[t := th2]);
      if s.shared == 1 {
        OkBroadcast(s.threads, t, th2, s.exclusive, s.shared, r.exclusive, r.shared);
      } else {
        OkUpdate(s.threads, t, th2, s.exclusive, s.shared, r.exclusive, r.shared);
      }
    case _ =>
      var th2 := r.threads[t];
      SumsUpdate(s.threads, t, th2);
      OkUpdate(s.threads, t, th2, s.exclusive, s.shared, r.exclusive, r.shared);
      InnerUpdate(s.inner, s.threads, t, th2, r.inner);
  }

  lemma StepKeeps(s: State, e: Event)
    requires Inv(s) && Enabled(s, e)
    ensures Inv(Apply(s, e))
  {
    hide Inv, Critical;
    if e.Work? {
      KeepsWork(s, e.t);
    } else {
      KeepsCall(s, e);
    }
  }

  lemma StartOk(n: nat)
    ensures Inv(Start(n))
  {
    SumsNone(n);
  }

  lemma {:induction false} RunKeeps(s: State, events: seq<Event>)
    requires Inv(s) && CanRun(s, events)
    ensures Inv(Run(s, events))
    decreases |events|
  {
    hide Inv, Apply, Enabled;
    if events != [] {
      StepKeeps(s, events[0]);
      RunKeeps(Apply(s, events[0]), events[1..]);
    }
  }

  // ---------------------------------------------------------------- what every run keeps

  /** In any state of any run a writer holds one lock and nothing else, and nobody else holds any. */
  lemma Exclusion(n: nat, events: seq<Event>, t: nat, u: nat)
    requires CanRun(Start(n), events)
    requires t < |Run(Start(n), events).threads| && u < |Run(Start(n), events).threads|
    ensures var ts := Run(Start(n), events).threads;
            ts[t].writing > 0 ==>
              && ts[t].writing == 1 && ts[t].reading == 0
              && (u != t ==> ts[u].writing == 0 && ts[u].reading == 0)
  {
    hide Writes, Reads, Run, CanRun;
    StartOk(n);
    RunKeeps(Start(n), events);
    var ts := Run(Start(n), events).threads;
    SumsCover(ts, t);
    SumsCover(ts, u);
    if t < u {
      SumsCoverTwo(ts, t, u);
    } else if u < t {
      SumsCoverTwo(ts, u, t);
    }
  }

  /** No wakeup is lost: whoever sleeps waits for a lock that some thread holds. */
  lemma NoLostWakeup(n: nat, events: seq<Event>, t: nat) returns (holder: nat)
    requires CanRun(Start(n), events)
    requires t < |Run(Start(n), events).threads| && Run(Start(n), events).threads[t].at.Asleep?
    ensures var s := Run(Start(n), events);
            && (s.threads[t].at.op == Lock || s.threads[t].at.op == LockShared)
            && Blocked(s.threads[t].at.op, s.exclusive, s.shared)
            && holder < |s.threads|
            && (s.threads[t].at.op == Lock ==> s.threads[holder].writing > 0 || s.threads[holder].reading > 0)
            && (s.threads[t].at.op == LockShared ==> s.threads[holder].writing > 0)
  {
    hide Writes, Reads, Run, CanRun;
    StartOk(n);
    RunKeeps(Start(n), events);
    holder := HolderOf(Run(Start(n), events), t);
  }

  lemma HolderOf(s: State, t: nat) returns (holder: nat)
    requires Inv(s) && t < |s.threads| && s.threads[t].at.Asleep?
    ensures holder < |s.threads| && (s.threads[holder].writing > 0 || s.threads[holder].reading > 0)
    ensures s.threads[t].at.op == LockShared ==> s.threads[holder].writing > 0
    ensures Blocked(s.threads[t].at.op, s.exclusive, s.shared)
  {
    hide Writes, Reads;
    SumsHolder(s.threads);
    if s.exclusive > 0 {
      holder :| 0 <= holder < |s.threads| && s.threads[holder].writing > 0;
    } else {
      holder :| 0 <= holder < |s.threads| && s.threads[holder].reading > 0;
    }
  }
}
