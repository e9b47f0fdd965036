/** The sequential part of the libevent wrapper: the queue of closures a
    Base runs on its event thread, the thread-local "on the event thread"
    flag that Dispatch and DispatchOnce set, the lazily created DNS
    resolver, Delay timers and Event timeouts.

    Closures are opaque ids. What running a closure does to the Base is
    limited to what the core observes of it: the closures it in turn
    queues with Add, given by the caller as a function `spawns`. Durations
    are whole microseconds. */
module LibEvent {

  import opened Basics
  import opened Tasks

  type Closure = nat

  /** One closure having run, with the value of the running thread's
      on_event_thread flag at that moment. */
  datatype Run = Run(closure: Closure, onEventThread: bool)

  /** The runs of a batch, in order, all on a thread whose flag is `flag`. */
  function Runs(batch: seq<Closure>, flag: bool): (r: seq<Run>)
    ensures |r| == |batch|
    ensures forall i :: 0 <= i < |r| ==> r[i] == Run(batch[i], flag)
  {
    if batch == [] then [] else Runs(batch[..|batch| - 1], flag) + [Run(batch[|batch| - 1], flag)]
  }

  /** What a batch queues while it runs: the closures each one adds, in
      order. */
  function Spawned(batch: seq<Closure>, spawns: Closure -> seq<Closure>): (r: seq<Closure>)
    ensures batch == [] ==> r == []
  {
    if batch == [] then [] else Spawned(batch[..|batch| - 1], spawns) + spawns(batch[|batch| - 1])
  }

  lemma SpawnedAppend(batch: seq<Closure>, c: Closure, spawns: Closure -> seq<Closure>)
    ensures Spawned(batch + [c], spawns) == Spawned(batch, spawns) + spawns(c)
  {
    assert (batch + [c])[..|batch|] == batch;
  }

  lemma RunsAppend(batch: seq<Closure>, c: Closure, flag: bool)
    ensures Runs(batch + [c], flag) == Runs(batch, flag) + [Run(c, flag)]
  {
    assert (batch + [c])[..|batch|] == batch;
  }

  /** A batch whose closures queue nothing leaves nothing for the next one. */
  lemma {:induction false} SpawnedNothing(batch: seq<Closure>, spawns: Closure -> seq<Closure>)
    requires forall i :: 0 <= i < |batch| ==> spawns(batch[i]) == []
    ensures Spawned(batch, spawns) == []
    decreases |batch|
  {
    if batch != [] {
      SpawnedNothing(batch[..|batch| - 1], spawns);
    }
  }

  /** The thread-local on_event_thread of the thread making the calls. */
  class ThreadState {
    var onEventThread: bool

    /** A thread starts off the event thread. */
    constructor ()
      ensures !onEventThread
    {
      onEventThread := false;
    }
  }

  /** Base::OnEventThread: the calling thread's flag. */
  function OnEventThread(t: ThreadState): bool
    reads t
  {
    t.onEventThread
  }

  /** An evdns_base. */
  class Resolver {
    constructor ()
    {
    }
  }

  class Base {
    /** closures_: queued by Add, not yet run. */
    var closures: seq<Closure>
    /** dns_: null until GetDns first runs. */
    var dns: Resolver?
    /** How many evhtp connections HttpConnectionNew has opened; the next
        one gets this number as its handle. */
    var connectionsMade: nat
    ghost var resolversCreated: nat
    /** Every closure run so far, in order. */
    ghost var ran: seq<Run>

    ghost predicate Valid()
      reads this
    {
      resolversCreated == (if dns == null then 0 else 1)
    }

    /** Base::Base ends by calling GetDns, so a Base always has its
        resolver. */
    constructor ()
      ensures Valid() && dns != null
      ensures closures == [] && ran == [] && connectionsMade == 0
    {
      closures := [];
      dns := null;
      connectionsMade := 0;
      resolversCreated := 0;
      ran := [];
      new;
      var _ := GetDns();
    }

    /** Base::Add */
    method Add(cb: Closure)
      modifies this
      ensures closures == old(closures) + [cb]
      ensures dns == old(dns) && ran == old(ran) && connectionsMade == old(connectionsMade)
      ensures resolversCreated == old(resolversCreated)
    {
      closures := closures + [cb];
    }

    /** Running one closure: the closures it queues go through Add. */
    method Run1(t: ThreadState, c: Closure, spawns: Closure -> seq<Closure>)
      modifies this
      ensures ran == old(ran) + [Run(c, t.onEventThread)]
      ensures closures == old(closures) + spawns(c)
      ensures dns == old(dns) && connectionsMade == old(connectionsMade)
      ensures resolversCreated == old(resolversCreated)
    {
      ran := ran + [Run(c, t.onEventThread)];
      var added := spawns(c);
      for j := 0 to |added|
        invariant closures == old(closures) + added[..j]
        invariant ran == old(ran) + [Run(c, t.onEventThread)]
        invariant dns == old(dns) && connectionsMade == old(connectionsMade)
        invariant resolversCreated == old(resolversCreated)
      {
        assert added[..j + 1] == added[..j] + [added[j]];
        Add(added[j]);
      }
      assert added[..|added|] == added;
    }

    /** Base::RunClosures: swap the whole queue out, then run that batch in
        the order it was queued. What the batch queues meanwhile is left
        for the next round. */
    method RunClosures(t: ThreadState, spawns: Closure -> seq<Closure>)
      modifies this
      ensures ran == old(ran) + Runs(old(closures), t.onEventThread)
      ensures closures == Spawned(old(closures), spawns)
      ensures dns == old(dns) && connectionsMade == old(connectionsMade)
      ensures resolversCreated == old(resolversCreated)
    {
      var batch := closures;
      closures := [];
      for i := 0 to |batch|
        invariant ran == old(ran) + Runs(batch[..i], t.onEventThread)
        invariant closures == Spawned(batch[..i], spawns)
        invariant dns == old(dns) && connectionsMade == old(connectionsMade)
        invariant resolversCreated == old(resolversCreated)
      {
        assert batch[..i + 1] == batch[..i] + [batch[i]];
        RunsAppend(batch[..i], batch[i], t.onEventThread);
        SpawnedAppend(batch[..i], batch[i], spawns);
        ghost var before := Runs(batch[..i], t.onEventThread);
        Run1(t, batch[i], spawns);
        AppendAssoc(old(ran), before, [Run(batch[i], t.onEventThread)]);
      }
      assert batch[..|batch|] == batch;
    }

    /** Base::Dispatch: the loop runs `rounds` rounds of queued closures
        with the caller's flag set, and the flag has its old value after. */
    method Dispatch(t: ThreadState, rounds: nat, spawns: Closure -> seq<Closure>)
      modifies this, t
      ensures t.onEventThread == old(t.onEventThread)
      ensures |ran| >= |old(ran)| && ran[..|old(ran)|] == old(ran)
      ensures forall i :: |old(ran)| <= i < |ran| ==> ran[i].onEventThread
      ensures dns == old(dns) && connectionsMade == old(connectionsMade)
      ensures resolversCreated == old(resolversCreated)
    {
      var oldOnEventThread := t.onEventThread;
      t.onEventThread := true;
      var k := 0;
      while k < rounds
        invariant t.onEventThread
        invariant |ran| >= |old(ran)| && ran[..|old(ran)|] == old(ran)
        invariant forall i :: |old(ran)| <= i < |ran| ==> ran[i].onEventThread
        invariant dns == old(dns) && connectionsMade == old(connectionsMade)
        invariant resolversCreated == old(resolversCreated)
      {
        ghost var before := ran;
        RunClosures(t, spawns);
        assert ran[..|before|] == before;
        k := k + 1;
      }
      t.onEventThread := oldOnEventThread;
    }

    /** Base::DispatchOnce: one round, same flag discipline. */
    method DispatchOnce(t: ThreadState, spawns: Closure -> seq<Closure>)
      modifies this, t
      ensures t.onEventThread == old(t.onEventThread)
      ensures ran == old(ran) + Runs(old(closures), true)
      ensures closures == Spawned(old(closures), spawns)
      ensures dns == old(dns) && connectionsMade == old(connectionsMade)
      ensures resolversCreated == old(resolversCreated)
    {
      var oldOnEventThread := t.onEventThread;
      t.onEventThread := true;
      RunClosures(t, spawns);
      t.onEventThread := oldOnEventThread;
    }

    /** Base::GetDns: creates the resolver on the first call only. */
    method GetDns() returns (r: Resolver)
      requires Valid()
      modifies this
      ensures Valid() && dns == r
      ensures old(dns) != null ==> r == old(dns)
      ensures old(dns) == null ==> fresh(r)
      ensures resolversCreated <= 1
      ensures closures == old(closures) && ran == old(ran) && connectionsMade == old(connectionsMade)
    {
      if dns == null {
        dns := new Resolver();
        resolversCreated := resolversCreated + 1;
      }
      r := dns;
    }

    /** Base::HttpConnectionNew: a new connection, resolved through the
        Base's resolver; the result is its handle. */
    method HttpConnectionNew(host: string, port: nat) returns (handle: nat)
      requires Valid()
      modifies this
      ensures Valid() && handle == old(connectionsMade) && connectionsMade == old(connectionsMade) + 1
      ensures dns != null && (old(dns) != null ==> dns == old(dns))
      ensures closures == old(closures) && ran == old(ran)
    {
      var _ := GetDns();
      handle := connectionsMade;
      connectionsMade := connectionsMade + 1;
    }
  }

  // ---------------------------------------------------------------------
  // Durations and timeouts
  // ---------------------------------------------------------------------

  const MicrosPerSecond := 1000000

  datatype TimeVal = TimeVal(sec: int, usec: int)

  /** Division truncating toward zero, as duration_cast does. */
  function TruncDiv(a: int, b: nat): int
    requires b > 0
  {
    if a >= 0 then a / b else -((-a) / b)
  }

  /** The seconds/microseconds split of Delay and Event::Add: whole seconds
      truncated toward zero, and what remains in microseconds. */
  function SplitDuration(us: int): (tv: TimeVal)
    ensures tv.sec * MicrosPerSecond + tv.usec == us
    ensures -MicrosPerSecond < tv.usec < MicrosPerSecond
    ensures us >= 0 ==> tv.sec >= 0 && tv.usec >= 0
    ensures us <= 0 ==> tv.sec <= 0 && tv.usec <= 0
  {
    var sec := TruncDiv(us, MicrosPerSecond);
    TimeVal(sec, us - sec * MicrosPerSecond)
  }

  /** For a non-negative duration the split is the one and only
      (seconds, microseconds) pair with the microseconds below a second. */
  lemma SplitDurationUnique(us: int, tv: TimeVal)
    requires us >= 0 && tv.sec * MicrosPerSecond + tv.usec == us && 0 <= tv.usec < MicrosPerSecond
    ensures SplitDuration(us) == tv
  {
    var sp := SplitDuration(us);
    assert (tv.sec - sp.sec) * MicrosPerSecond == sp.usec - tv.usec;
  }

  /** The timeval pointer Event::Add hands to event_add: none for a zero
      timeout, which means "wait without a timeout". */
  function EventTimeout(us: int): (r: Option<TimeVal>)
    ensures r.None? <==> us == 0
    ensures r.Some? ==> r.value.sec * MicrosPerSecond + r.value.usec == us
  {
    if us != 0 then Some(SplitDuration(us)) else None
  }

  /** An evtimer created by Delay, with the task it resolves. */
  class Timer {
    const task: Task
    const tv: TimeVal
    var pending: bool

    constructor (task: Task, tv: TimeVal)
      ensures this.task == task && this.tv == tv && pending
    {
      this.task, this.tv, pending := task, tv, true;
    }

    /** DelayDispatch: the timer fired, the task is done with OK. */
    method Fire()
      requires pending && task.status.None?
      modifies this, task
      ensures !pending && task.status == Some(OkStatus)
    {
      pending := false;
      task.Return(OkStatus);
    }

    /** DelayCancel: the timer is removed, the task is done with CANCELLED. */
    method Cancel()
      requires task.status.None?
      modifies this, task
      ensures !pending && task.status == Some(CancelledStatus)
    {
      pending := false;
      task.Return(CancelledStatus);
    }
  }

  /** Base::Delay: a delay of zero or less returns OK at once and creates
      no timer; otherwise a pending timer set to the split delay. */
  method Delay(delayUs: int, task: Task) returns (timer: Timer?)
    requires delayUs <= 0 ==> task.status.None?
    modifies task
    ensures delayUs <= 0 ==> timer == null && task.status == Some(OkStatus)
    ensures delayUs > 0 ==> timer != null && fresh(timer) && timer.pending && timer.task == task
    ensures delayUs > 0 ==> timer.tv == SplitDuration(delayUs) && task.status == old(task.status)
    ensures delayUs > 0 ==> 0 <= timer.tv.usec < MicrosPerSecond
  {
    if delayUs <= 0 {
      task.Return(OkStatus);
      return null;
    }
    timer := new Timer(task, SplitDuration(delayUs));
  }

  /** A libevent::Event: whether it is added, and with which timeout. */
  class Event {
    var added: bool
    var timeout: Option<TimeVal>

    constructor ()
      ensures !added && timeout.None?
    {
      added, timeout := false, None;
    }

    /** Event::Add */
    method Add(timeoutUs: int)
      modifies this
      ensures added && timeout == EventTimeout(timeoutUs)
    {
      var tvp: Option<TimeVal> := None;
      if timeoutUs != 0 {
        var sec := TruncDiv(timeoutUs, MicrosPerSecond);
        tvp := Some(TimeVal(sec, timeoutUs - sec * MicrosPerSecond));
      }
      added, timeout := true, tvp;
    }
  }
}
