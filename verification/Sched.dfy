/**
 The scheduler's run queue as linked thread control blocks: a circular doubly linked list
 through next and prev, with a pointer to its head. Each method is tied to SchedSpec.
 */
module Sched {

  import opened Sequences
  import opened SchedSpec

  const SCHED_QUANTUM_TICKS: nat := 10

  class Thread {
    var state: ThreadState
    var next: Thread?
    var prev: Thread?
    var quantum: nat
    var wakeTick: nat

    /** A thread control block as thread_create leaves it. */
    constructor ()
      ensures state == Ready && next == null && prev == null && quantum == 10
    {
      state, next, prev, quantum, wakeTick := Ready, null, null, SCHED_QUANTUM_TICKS, 0;
    }
  }

  function Succ(i: nat, n: nat): (j: nat)
    requires i < n
    ensures j < n
  {
    if i + 1 < n then i + 1 else 0
  }

  function Pred(i: nat, n: nat): (j: nat)
    requires i < n
    ensures j < n
  {
    if i > 0 then i - 1 else n - 1
  }

  /** Element i of the ring points to its two neighbours. */
  ghost predicate LinkedAt(q: seq<Thread>, i: nat)
    requires i < |q|
    reads q`next, q`prev
  {
    q[i].next == q[Succ(i, |q|)] && q[i].prev == q[Pred(i, |q|)]
  }

  /** The threads of q, in this order, form the circular list that starts at head. */
  ghost predicate RingOk(head: Thread?, q: seq<Thread>)
    reads q`next, q`prev
  {
    && (head == null <==> q == [])
    && (q != [] ==> head == q[0])
    && Distinct(q)
    && forall i: nat :: i < |q| ==> LinkedAt(q, i)
  }

  /** Element j of the ring points past element k. */
  ghost predicate Bypasses(q: seq<Thread>, k: nat, j: nat)
    requires k < |q| && j < |q|
    reads q`next, q`prev
  {
    var n := |q|;
    && q[j].next == q[if Succ(j, n) == k then Succ(k, n) else Succ(j, n)]
    && q[j].prev == q[if Pred(j, n) == k then Pred(k, n) else Pred(j, n)]
  }

  /** Neighbours in a ring after element k is dropped. */
  lemma DropNeighbours<T>(q: seq<T>, k: nat, i: nat)
    requires k < |q| && i < |q| - 1
    ensures var n := |q|;
            var w := q[..k] + q[k + 1..];
            var j := if i < k then i else i + 1;
            && w[i] == q[j]
            && w[Succ(i, n - 1)] == q[if Succ(j, n) == k then Succ(k, n) else Succ(j, n)]
            && w[Pred(i, n - 1)] == q[if Pred(j, n) == k then Pred(k, n) else Pred(j, n)]
  {
  }

  lemma LinkedAfterDrop(q: seq<Thread>, k: nat, i: nat)
    requires k < |q| && i < |q| - 1 && Bypasses(q, k, if i < k then i else i + 1)
    ensures LinkedAt(q[..k] + q[k + 1..], i)
  {
    DropNeighbours(q, k, i);
  }

  class Scheduler {
    var head: Thread?
    var current: Thread
    var needResched: bool
    var nthreads: int
    ghost var queue: seq<Thread>
    ghost var threads: set<Thread>

    ghost function Model(): Sys<Thread>
      reads this, threads`state
    {
      Sys(current, queue, map t | t in threads :: t.state)
    }

    /** The queued threads are the ring; every other known thread is unlinked. */
    ghost predicate Linked()
      reads this, threads`next, threads`prev, queue`next, queue`prev
    {
      && RingOk(head, queue)
      && (forall t :: t in queue ==> t in threads)
      && (forall t :: t in threads && t !in queue ==> t.next == null && t.prev == null)
      && current in threads
    }

    ghost predicate Valid()
      reads this, threads, queue
    {
      Linked() && Inv(Model())
    }

    /** sched_init with thread_init_idle: the idle thread is current and running. */
    constructor ()
      ensures Valid() && queue == [] && current.state == Running && fresh(current) && threads == {current}
    {
      var idle := new Thread();
      head, current, needResched, nthreads := null, idle, false, 1;
      queue, threads := [], {idle};
      new;
      current.state := Running;
    }

    method Enqueue(t: Thread)
      requires Linked() && t !in queue
      modifies this`head, this`queue, this`threads, t`state, t`next, t`prev, queue`next, queue`prev
      ensures Linked()
      ensures queue == old(queue) + [t] && threads == old(threads) + {t}
      ensures t.state == Ready
    {
      ghost var was := queue;
      t.state := Ready;
      queue, threads := was + [t], threads + {t};
      if head == null {
        head := t;
        t.next, t.prev := t, t;
      } else {
        assert old(LinkedAt(queue, 0)) && old(LinkedAt(queue, |queue| - 1));
        t.prev := head.prev;
        t.next := head;
        head.prev.next := t;
        head.prev := t;
      }
      forall i: nat | i < |queue| ensures LinkedAt(queue, i) {
        if i < |was| {
          assert old(LinkedAt(queue, i));
          assert queue[i] == was[i];
        }
      }
    }

    method DequeueNext() returns (t: Thread?)
      requires Linked()
      modifies this`head, this`queue, queue`next, queue`prev
      ensures Linked()
      ensures old(queue) == [] ==> t == null && queue == []
      ensures old(queue) != [] ==> t == old(queue)[0] && queue == old(queue)[1..]
    {
      if head == null { return null; }
      t := head;
      assert LinkedAt(queue, 0);
      Unlink(t, 0);
    }

    /** The pointer writes that take thread k out of the ring. */
    method Bypass(t: Thread, ghost k: nat)
      requires RingOk(head, queue) && k < |queue| && queue[k] == t
      modifies this`head, queue`next, queue`prev
      ensures t.next == null && t.prev == null
      ensures head == if |queue| == 1 then null else if k == 0 then queue[1] else queue[0]
      ensures forall j: nat :: j < |queue| && j != k ==> Bypasses(queue, k, j)
    {
      ghost var n := |queue|;
      ghost var p, s := Pred(k, n), Succ(k, n);
      assert LinkedAt(queue, k);
      if t.next == t {
        head := null;
      } else {
        if head == t { head := t.next; }
        t.prev.next := t.next;
        t.next.prev := t.prev;
      }
      t.next, t.prev := null, null;
      forall j: nat | j < n && j != k ensures Bypasses(queue, k, j) {
        assert old(LinkedAt(queue, j));
        assert queue[j] != t && (queue[j] == queue[p] <==> j == p) && (queue[j] == queue[s] <==> j == s);
      }
    }

    /** Take thread k out of the ring; head moves on when it was the head. */
    method Unlink(t: Thread, ghost k: nat)
      requires Linked() && k < |queue| && queue[k] == t
      modifies this`head, this`queue, queue`next, queue`prev
      ensures Linked()
      ensures queue == old(queue)[..k] + old(queue)[k + 1..]
    {
      hide Bypasses, LinkedAt, Distinct;
      ghost var was := queue;
      DropKeeps(was, k);
      Bypass(t, k);
      queue := was[..k] + was[k + 1..];
      forall i: nat | i < |queue| ensures LinkedAt(queue, i) {
        assert Bypasses(was, k, if i < k then i else i + 1);
        LinkedAfterDrop(was, k, i);
      }
    }

    /** sched_remove: a thread that is not linked is left alone. */
    method RemoveThread(t: Thread)
      requires Linked() && (t in threads || Created(t))
      modifies this`head, this`queue, queue`next, queue`prev
      ensures Linked() && queue == Without(old(queue), t)
    {
      ghost var k := Find(queue, t);
      assert k < |queue| ==> LinkedAt(queue, k);
      if t.next == null { return; }
      Unlink(t, k);
    }

    // ----- the scheduler's entry points -----

    method Add(t: Thread)
      requires Valid() && Legal(Model(), SchedSpec.Add(t))
      modifies this`head, this`queue, this`threads, t`state, t`next, t`prev, queue`next, queue`prev
      ensures Valid() && Model() == Do(old(Model()), SchedSpec.Add(t)) && threads == old(threads) + {t}
    {
      ghost var s0 := Model();
      Enqueue(t);
      assert Model().st == Do(s0, SchedSpec.Add(t)).st;
      StepKeeps(s0, SchedSpec.Add(t));
    }

    method Wake(t: Thread)
      requires Valid() && (t in threads || Created(t)) && Legal(Model(), SchedSpec.Wake(t))
      modifies this`head, this`queue, this`threads, t`state, t`next, t`prev, queue`next, queue`prev
      ensures Valid() && Model() == Do(old(Model()), SchedSpec.Wake(t)) && threads == old(threads)
      ensures t !in threads ==> unchanged(t)
    {
      ghost var s0 := Model();
      if t.state == Sleeping || t.state == Blocked {
        Enqueue(t);
        assert threads == old(threads);
      }
      assert Model().st == Do(s0, SchedSpec.Wake(t)).st;
      StepKeeps(s0, SchedSpec.Wake(t));
    }

    method Remove(t: Thread)
      requires Valid() && (t in threads || Created(t))
      modifies this`head, this`queue, queue`next, queue`prev
      ensures Valid() && Model() == Do(old(Model()), SchedSpec.Remove(t))
    {
      ghost var s0 := Model();
      RemoveThread(t);
      assert Model().st == s0.st;
      StepKeeps(s0, SchedSpec.Remove(t));
    }

    lemma RotateFacts()
      requires Valid()
      ensures current !in queue && current in Model().st
      ensures queue != [] ==> queue[0] !in queue[1..] && queue[0] in threads
    {
    }

    /** Dequeue the next thread and put a RUNNING current one at the end. */
    method Rotate() returns (next: Thread?)
      requires Valid()
      modifies this`head, this`queue, this`threads, this`needResched, threads`state, threads`next, threads`prev
      ensures Linked() && threads == old(threads) && current in threads && current in old(Model()).st
      ensures next == null <==> old(queue) == []
      ensures next == null ==> queue == [] && !needResched
      ensures next != null ==> next == old(queue)[0] && next in threads && next !in queue
      ensures next != null ==>
                queue == if old(current.state) == Running then old(queue)[1..] + [current] else old(queue)[1..]
      ensures Model().st == if next != null && old(current.state) == Running
                            then old(Model()).st[current := Ready] else old(Model()).st
    {
      hide LinkedAt, RingOk, Distinct, Inv;
      RotateFacts();
      ghost var q := queue;
      next := DequeueNext();
      if next == null {
        needResched := false;
        assert Model().st == old(Model()).st;
        return;
      }
      assert forall t :: t in queue ==> t in q;
      if current.state == Running { Enqueue(current); }
      assert threads == old(threads);
    }

    /** The dispatched thread becomes current, RUNNING and with a full quantum. */
    method Dispatch(next: Thread)
      requires Linked() && next in threads && next !in queue
      modifies this`current, this`needResched, next`state, current`quantum, next`quantum
      ensures Linked() && current == next && !needResched
      ensures Model().st == old(Model()).st[next := Running]
      ensures current.quantum == old(current).quantum == SCHED_QUANTUM_TICKS
    {
      hide LinkedAt, RingOk, Distinct;
      current.quantum := SCHED_QUANTUM_TICKS;
      next.state := Running;
      next.quantum := SCHED_QUANTUM_TICKS;
      needResched := false;
      current := next;
    }

    /** sched_yield up to switch_context, which module Switch describes. */
    method Yield()
      requires Valid()
      modifies this`head, this`queue, this`threads, this`current, this`needResched
      modifies threads`state, threads`next, threads`prev, threads`quantum
      ensures Valid() && Model() == DoYield(old(Model()))
      ensures threads == old(threads) && !needResched
      ensures old(queue) != [] ==> current.quantum == old(current).quantum == 10
    {
      hide LinkedAt, RingOk, Distinct, Inv, Linked;
      ghost var s0 := Model();
      YieldKeeps(s0);
      var next := Rotate();
      if next != null { Dispatch(next); }
    }

    /** sched_sleep at tick now. */
    method Sleep(ms: nat, now: nat)
      requires Valid()
      modifies this`head, this`queue, this`threads, this`current, this`needResched
      modifies threads`state, threads`next, threads`prev, threads`quantum, current`wakeTick
      ensures Valid() && Model() == Do(old(Model()), SchedSpec.Sleep)
      ensures threads == old(threads) && old(current).wakeTick == now + ms / 10
    {
      ghost var s0 := Model();
      StepKeeps(s0, SchedSpec.Sleep);
      WithoutKeeps(queue, current);
      var cur := current;
      cur.state := Sleeping;
      cur.wakeTick := now + ms / 10;
      assert Linked();
      RemoveThread(cur);
      assert Model().st == s0.st[cur := Sleeping];
      Yield();
    }

    /** thread_exit up to its final halt loop. */
    method Exit()
      requires Valid()
      modifies this`head, this`queue, this`threads, this`current, this`needResched, this`nthreads
      modifies threads`state, threads`next, threads`prev, threads`quantum
      ensures Valid() && Model() == Do(old(Model()), SchedSpec.Exit)
      ensures threads == old(threads) && nthreads == old(nthreads) - 1
      ensures old(current).state == Zombie && old(current) !in queue && (current == old(current) <==> old(queue) == [])
    {
      ghost var s0 := Model();
      current.state := Zombie;
      nthreads := nthreads - 1;
      assert Model().st == s0.st[current := Zombie];
      Yield();
      ExitLeaves(s0);
      assert Model().st[s0.cur] == Zombie;
    }

    /** The scan of sched_tick: queued sleepers past their deadline would become READY. */
    method ScanDeadlines(now: nat)
      requires Linked() && queue != []
      modifies queue`state
      ensures forall t :: t in queue ==>
                t.state == if old(t.state) == Sleeping && t.wakeTick <= now then Ready else old(t.state)
    {
      var t: Thread? := head;
      var start := t;
      ghost var i := 0;
      while true
        invariant i < |queue| && t == queue[i]
        invariant forall j :: i <= j < |queue| ==> queue[j].state == old(queue[j].state)
        invariant forall j :: 0 <= j < i ==>
                    queue[j].state == if old(queue[j].state) == Sleeping && queue[j].wakeTick <= now then Ready else old(queue[j].state)
        decreases |queue| - i
      {
        assert LinkedAt(queue, i);
        if t.state == Sleeping && t.wakeTick <= now {
          t.state := Ready;
        }
        t := t.next;
        if t == null || t == start {
          assert i == |queue| - 1;
          break;
        }
        i := i + 1;
      }
    }

    lemma HeadIffQueue()
      requires Linked()
      ensures head == null <==> queue == []
    {
    }

    /** sched_tick: it ends, and no deadline ever changes a thread state. */
    method Tick(now: nat)
      requires Valid()
      modifies this`needResched, current`quantum, queue`state
      ensures Valid() && Model() == old(Model())
      ensures current.quantum == if old(current.quantum) > 0 then old(current.quantum) - 1 else 0
      ensures needResched == (old(needResched) || current.quantum == 0)
    {
      hide LinkedAt, RingOk, Distinct;
      ghost var s0 := Model();
      assert head == null <==> queue == [] by { HeadIffQueue(); }
      if current.quantum > 0 { current.quantum := current.quantum - 1; }
      if current.quantum == 0 { needResched := true; }
      assert Linked();
      if head != null {
        ScanDeadlines(now);
        forall t | t in threads ensures t.state == s0.st[t] {
          if t in queue { assert s0.st[t] == Ready; }
        }
      }
      assert Model().st == s0.st;
    }

    // ----- whole runs -----

    /** Every thread there is: those the scheduler has met, and others as thread_create left them. */
    ghost predicate Pool(pool: set<Thread>)
      reads this, pool`state, pool`next, pool`prev
    {
      threads <= pool && forall t :: t in pool && t !in threads ==> Created(t)
    }

    /** One operation of a run, on any thread there is. */
    method Perform(op: Op<Thread>, ms: nat, now: nat, ghost pool: set<Thread>)
      requires Valid() && Legal(Model(), op) && Pool(pool) && Concerns(op) <= pool
      modifies this, pool
      ensures Valid() && Model() == Do(old(Model()), op) && Pool(pool)
    {
      hide LinkedAt, RingOk, Distinct, Inv;
      match op {
        case Add(t) => Add(t);
        case Wake(t) => Wake(t);
        case Remove(t) => Remove(t);
        case Yield => Yield();
        case Sleep => Sleep(ms, now);
        case Exit => Exit();
      }
    }

    /**
     A whole run on the linked blocks, with a timer tick after every operation, is the run of the
     FIFO. The run may add, wake and remove any thread there is, new ones included.
     */
    method PerformAll(ops: seq<Op<Thread>>, delays: seq<nat>, clock: seq<nat>, ghost pool: set<Thread>)
      requires Valid() && LegalRun(Model(), ops) && |delays| == |clock| == |ops|
      requires Pool(pool) && forall i :: 0 <= i < |ops| ==> Concerns(ops[i]) <= pool
      modifies this, pool
      ensures Valid() && Model() == Run(old(Model()), ops) && Pool(pool)
      decreases |ops|
    {
      hide LinkedAt, RingOk, Distinct, Inv, Do;
      if ops == [] { return; }
      Perform(ops[0], delays[0], clock[0], pool);
      Tick(clock[0]);
      PerformAll(ops[1..], delays[1..], clock[1..], pool);
    }
  }

  /** As thread_create leaves it: READY and on no list. */
  ghost predicate Created(t: Thread)
    reads t`state, t`next, t`prev
  {
    t.state == Ready && t.next == null && t.prev == null
  }

  /** The thread an operation is given. */
  ghost function Concerns(op: Op<Thread>): set<Thread>
  {
    match op
    case Add(t) => {t}
    case Wake(t) => {t}
    case Remove(t) => {t}
    case _ => {}
  }

  /** From sched_init, with one thread just created: it is woken in vain, added, and runs after the first yield. */
  method StartOne() returns (s: Scheduler, t: Thread)
    ensures s.Valid() && s.current == t && t.state == Running && s.queue != []
  {
    hide LinkedAt, RingOk, Distinct, Run, LegalRun, Inv;
    s := new Scheduler();
    t := new Thread();
    StartRun(s.Model(), t);
    s.PerformAll([SchedSpec.Wake(t), SchedSpec.Add(t), SchedSpec.Yield], [0, 0, 0], [0, 1, 2], {s.current, t});
    assert s.Model().st[t] == Running;
  }
}
