/**
 The scheduler as a step system: the current thread, the run queue as a sequence in
 FIFO order, and the state of every thread.
 */
module SchedSpec {

  import opened Sequences

  datatype ThreadState = Ready | Running | Blocked | Sleeping | Zombie

  datatype Sys<T> = Sys(cur: T, queue: seq<T>, st: map<T, ThreadState>)

  datatype Op<T> = Add(t: T) | Wake(t: T) | Remove(t: T) | Yield | Sleep | Exit {
    /** The running thread gives up the processor. */
    predicate Switches() { Yield? || Sleep? || Exit? }
  }

  /** Position of t in q, or the length of q. */
  function Find<T(==)>(q: seq<T>, t: T): (k: nat)
    ensures k <= |q| && (k < |q| ==> q[k] == t) && t !in q[..k]
    ensures k == |q| <==> t !in q
  {
    if q == [] then 0
    else if q[0] == t then 0
    else
      var k := Find(q[1..], t);
      assert q[..k + 1] == [q[0]] + q[1..][..k];
      assert q == [q[0]] + q[1..];
      k + 1
  }

  function Without<T(==)>(q: seq<T>, t: T): seq<T>
  {
    var k := Find(q, t);
    if k < |q| then q[..k] + q[k + 1..] else q
  }

  function Enqueue<T>(s: Sys<T>, t: T): Sys<T>
  {
    s.(queue := s.queue + [t], st := s.st[t := Ready])
  }

  /** sched_yield: nothing happens on an empty queue. */
  function DoYield<T>(s: Sys<T>): Sys<T>
    requires s.cur in s.st
  {
    if s.queue == [] then s
    else
      var next := s.queue[0];
      var popped := s.(queue := s.queue[1..]);
      var kept := if s.st[s.cur] == Running then Enqueue(popped, s.cur) else popped;
      kept.(cur := next, st := kept.st[next := Running])
  }

  function Do<T(==)>(s: Sys<T>, op: Op<T>): Sys<T>
    requires s.cur in s.st
  {
    match op
    case Add(t) => Enqueue(s, t)
    case Wake(t) =>
      if t in s.st && (s.st[t] == Sleeping || s.st[t] == Blocked) then Enqueue(s, t) else s
    case Remove(t) => s.(queue := Without(s.queue, t))
    case Yield => DoYield(s)
    case Sleep =>
      var asleep := s.(st := s.st[s.cur := Sleeping], queue := Without(s.queue, s.cur));
      DoYield(asleep)
    case Exit => DoYield(s.(st := s.st[s.cur := Zombie]))
  }

  // ----- the invariant -----

  /** Queued threads are distinct and READY, the current one is not queued, a RUNNING one is current. */
  ghost predicate Inv<T>(s: Sys<T>)
  {
    && s.cur in s.st
    && s.cur !in s.queue
    && Distinct(s.queue)
    && (forall t :: t in s.queue ==> t in s.st && s.st[t] == Ready)
    && (forall t :: t in s.st && s.st[t] == Running ==> t == s.cur)
  }

  /** What callers owe: add only unqueued, non-current threads, and never wake the current one. */
  predicate Legal<T(==)>(s: Sys<T>, op: Op<T>)
  {
    match op
    case Add(t) => t != s.cur && t !in s.queue
    case Wake(t) => t != s.cur
    case _ => true
  }

  /** Dropping element k of a sequence without repetition. */
  lemma DropKeeps<T>(q: seq<T>, k: nat)
    requires Distinct(q) && k < |q|
    ensures Distinct(q[..k] + q[k + 1..])
    ensures forall u :: u in q[..k] + q[k + 1..] <==> u in q && u != q[k]
  {
    var w := q[..k] + q[k + 1..];
    forall i | 0 <= i < |w| ensures w[i] == q[if i < k then i else i + 1] {
    }
    forall u | u in q && u != q[k] ensures u in w {
      var i :| 0 <= i < |q| && q[i] == u;
      assert w[if i < k then i else i - 1] == u;
    }
  }

  lemma WithoutKeeps<T>(q: seq<T>, t: T)
    requires Distinct(q)
    ensures Distinct(Without(q, t)) && t !in Without(q, t)
    ensures forall u :: u in Without(q, t) <==> u in q && u != t
  {
    var k := Find(q, t);
    if k < |q| { DropKeeps(q, k); }
  }

  lemma YieldKeeps<T>(s: Sys<T>)
    requires Inv(s)
    ensures Inv(DoYield(s))
  {
    if s.queue != [] {
      var r := DoYield(s);
      forall t | t in r.queue ensures t in r.st && r.st[t] == Ready {
        assert t in s.queue[1..] || t == s.cur;
        if t in s.queue[1..] { assert t in s.queue; }
      }
      assert s.queue[0] !in s.queue[1..];
    }
  }

  /** Every legal step keeps the invariant. */
  lemma StepKeeps<T>(s: Sys<T>, op: Op<T>)
    requires Inv(s) && Legal(s, op)
    ensures Inv(Do(s, op))
  {
    match op
    case Add(t) =>
    case Wake(t) =>
    case Remove(t) => WithoutKeeps(s.queue, t);
    case Yield => YieldKeeps(s);
    case Sleep =>
      WithoutKeeps(s.queue, s.cur);
      YieldKeeps(s.(st := s.st[s.cur := Sleeping], queue := Without(s.queue, s.cur)));
    case Exit => YieldKeeps(s.(st := s.st[s.cur := Zombie]));
  }

  /** The two demands on callers are exact: without them the invariant breaks. */
  lemma DemandsExact<T>(s: Sys<T>, t: T)
    requires Inv(s)
    ensures Inv(Do(s, Add(t))) <==> Legal(s, Add(t))
    ensures t in s.st ==>
              (Inv(Do(s, Wake(t))) <==> t != s.cur || (s.st[t] != Sleeping && s.st[t] != Blocked))
  {
    var a := Do(s, Add(t));
    assert a.queue[|s.queue|] == t;
    if t in s.queue {
      var i :| 0 <= i < |s.queue| && s.queue[i] == t;
      assert a.queue[i] == a.queue[|s.queue|];
    } else if t != s.cur {
      StepKeeps(s, Add(t));
    }
    if t != s.cur { StepKeeps(s, Wake(t)); }
  }

  /** Sleeping with nobody to switch to leaves the sleeper current and marked SLEEPING. */
  lemma SleepAlone<T>(s: Sys<T>)
    requires Inv(s)
    ensures Do(s, Sleep).st[s.cur] == Sleeping
    ensures Do(s, Sleep).cur == s.cur <==> s.queue == []
    ensures s.cur !in Do(s, Sleep).queue
    ensures s.queue != [] ==> Do(s, Sleep).cur == s.queue[0] && Do(s, Sleep).queue == s.queue[1..]
  {
    assert s.queue != [] ==> s.queue[0] in s.queue;
    WithoutKeeps(s.queue, s.cur);
  }

  // ----- runs -----

  function Run<T(==)>(s: Sys<T>, ops: seq<Op<T>>): (r: Sys<T>)
    requires s.cur in s.st && LegalRun(s, ops)
    decreases |ops|
  {
    if ops == [] then s else Run(Do(s, ops[0]), ops[1..])
  }

  predicate LegalRun<T(==)>(s: Sys<T>, ops: seq<Op<T>>)
    requires s.cur in s.st
    decreases |ops|
  {
    ops == [] ||
    (Legal(s, ops[0]) && Do(s, ops[0]).cur in Do(s, ops[0]).st && LegalRun(Do(s, ops[0]), ops[1..]))
  }

  lemma {:induction false} RunKeeps<T>(s: Sys<T>, ops: seq<Op<T>>)
    requires Inv(s) && LegalRun(s, ops)
    ensures Inv(Run(s, ops))
    decreases |ops|
  {
    if ops != [] {
      StepKeeps(s, ops[0]);
      RunKeeps(Do(s, ops[0]), ops[1..]);
    }
  }

  function Switches<T>(ops: seq<Op<T>>): nat
  {
    if ops == [] then 0 else (if ops[0].Switches() then 1 else 0) + Switches(ops[1..])
  }

  /** A queued thread that is not removed either gets the processor or keeps its place or better. */
  lemma StepAdvances<T>(s: Sys<T>, op: Op<T>, t: T, i: nat)
    requires Inv(s) && Legal(s, op) && op != Remove(t)
    requires i < |s.queue| && s.queue[i] == t
    ensures op.Switches() && i == 0 ==> Do(s, op).cur == t
    ensures op.Switches() && i > 0 ==> i - 1 < |Do(s, op).queue| && Do(s, op).queue[i - 1] == t
    ensures !op.Switches() ==> exists j :: 0 <= j <= i && j < |Do(s, op).queue| && Do(s, op).queue[j] == t
  {
    match op
    case Remove(u) =>
      var k := Find(s.queue, u);
      if k < |s.queue| {
        var r := Do(s, op);
        assert k != i;
        var j := if k < i then i - 1 else i;
        assert r.queue[j] == t;
      } else {
        assert Do(s, op).queue[i] == t;
      }
    case Sleep => assert Without(s.queue, s.cur) == s.queue;
    case Add(u) => assert Do(s, op).queue[i] == t;
    case Wake(u) => assert Do(s, op).queue[i] == t;
    case Yield =>
    case Exit =>
  }

  /**
   Bounded waiting: in every legal run that does not remove it, a thread at position i of the
   queue is current at some point, once the running threads have given up the processor i + 1 times.
   */
  lemma {:induction false} BoundedWaiting<T>(s: Sys<T>, ops: seq<Op<T>>, t: T, i: nat) returns (k: nat)
    requires Inv(s) && LegalRun(s, ops) && Remove(t) !in ops
    requires i < |s.queue| && s.queue[i] == t
    requires Switches(ops) >= i + 1
    ensures k <= |ops| && LegalRun(s, ops[..k]) && Run(s, ops[..k]).cur == t
    ensures Switches(ops[..k]) <= i + 1
    decreases |ops|
  {
    var op, rest := ops[0], ops[1..];
    var s1 := Do(s, op);
    StepAdvances(s, op, t, i);
    StepKeeps(s, op);
    var k1: nat;
    if op.Switches() && i == 0 {
      k1 := 0;
    } else if op.Switches() {
      k1 := BoundedWaiting(s1, rest, t, i - 1);
    } else {
      var j :| 0 <= j <= i && j < |s1.queue| && s1.queue[j] == t;
      k1 := BoundedWaiting(s1, rest, t, j);
    }
    k := k1 + 1;
    assert ops[..k][0] == op && ops[..k][1..] == rest[..k1];
  }

  // ----- leaving and coming back -----

  /** thread_exit leaves a ZOMBIE that is not queued, and still current only if nobody else was. */
  lemma ExitLeaves<T>(s: Sys<T>)
    requires Inv(s)
    ensures var r := Do(s, Exit);
            && s.cur in r.st && r.st[s.cur] == Zombie && s.cur !in r.queue
            && (r.cur == s.cur <==> s.queue == [])
            && (s.queue != [] ==> r.cur == s.queue[0] && r.queue == s.queue[1..])
  {
    assert s.queue != [] ==> s.queue[0] in s.queue;
  }

  /** Out of the scheduler's hands: in the given state, neither queued nor current. */
  ghost predicate Off<T>(s: Sys<T>, t: T, x: ThreadState)
  {
    t in s.st && s.st[t] == x && t !in s.queue && t != s.cur
  }

  /** A dead thread stays off, whatever is done that does not add it again; waking it changes nothing. */
  lemma DeadStays<T>(s: Sys<T>, op: Op<T>, t: T)
    requires Inv(s) && Legal(s, op) && Off(s, t, Zombie) && op != Add(t)
    ensures Off(Do(s, op), t, Zombie) && Do(s, Wake(t)) == s
  {
    OffStays(s, op, t, Zombie);
  }

  /** A thread that sleeps, or is blocked, stays off until it is woken or added. */
  lemma SleeperStays<T>(s: Sys<T>, op: Op<T>, t: T, x: ThreadState)
    requires Inv(s) && Legal(s, op) && Off(s, t, x) && x != Running && op != Add(t) && op != Wake(t)
    ensures Off(Do(s, op), t, x)
  {
    OffStays(s, op, t, x);
  }

  lemma OffStays<T>(s: Sys<T>, op: Op<T>, t: T, x: ThreadState)
    requires Inv(s) && Legal(s, op) && Off(s, t, x) && x != Running && op != Add(t)
    requires op == Wake(t) ==> x != Sleeping && x != Blocked
    ensures Off(Do(s, op), t, x)
  {
    hide Distinct;
    assert s.queue != [] ==> s.queue[0] in s.queue;
    WithoutKeeps(s.queue, s.cur);
    var rest := Without(s.queue, s.cur);
    assert rest != [] ==> rest[0] in rest;
    if op.Remove? { WithoutKeeps(s.queue, op.t); }
  }

  /** sched_wake puts a sleeping or blocked thread at the end of the queue, READY. */
  lemma WakeJoins<T>(s: Sys<T>, t: T)
    requires Inv(s) && (Off(s, t, Sleeping) || Off(s, t, Blocked))
    ensures var r := Do(s, Wake(t));
            r.queue == s.queue + [t] && r.st == s.st[t := Ready] && r.cur == s.cur
  {
  }

  /** sched_remove takes exactly the thread out of the queue and leaves the order of the others and every state. */
  lemma RemoveLeaves<T>(s: Sys<T>, t: T)
    requires Inv(s)
    ensures var r := Do(s, Remove(t));
            && r.cur == s.cur && r.st == s.st && t !in r.queue && (t !in s.queue ==> r == s)
            && forall i :: 0 <= i < |s.queue| && s.queue[i] == t ==> r.queue == s.queue[..i] + s.queue[i + 1..]
  {
    WithoutKeeps(s.queue, t);
  }

  /** sched_add puts the thread behind all others, READY. */
  lemma AddJoins<T>(s: Sys<T>, t: T)
    requires Inv(s) && Legal(s, Add(t))
    ensures var r := Do(s, Add(t));
            r.queue == s.queue + [t] && r.st == s.st[t := Ready] && r.cur == s.cur
  {
  }

  /** In every legal run that does not add it again, a dead thread is never queued or current. */
  lemma {:induction false} DeadRun<T>(s: Sys<T>, ops: seq<Op<T>>, t: T)
    requires Inv(s) && LegalRun(s, ops) && Off(s, t, Zombie) && Add(t) !in ops
    ensures Off(Run(s, ops), t, Zombie)
    decreases |ops|
  {
    hide Do, Off;
    if ops != [] {
      StepKeeps(s, ops[0]);
      DeadStays(s, ops[0], t);
      DeadRun(Do(s, ops[0]), ops[1..], t);
    }
  }

  // ----- round robin -----

  function Yields<T>(n: nat): seq<Op<T>>
  {
    if n == 0 then [] else [Yield] + Yields(n - 1)
  }

  function Ring<T>(s: Sys<T>): seq<T> { [s.cur] + s.queue }

  function Rotate<T>(q: seq<T>, k: nat): seq<T>
    requires k <= |q|
  {
    q[k..] + q[..k]
  }

  /** A yield by a RUNNING thread rotates the ring of current and queued threads by one. */
  lemma YieldRotates<T>(s: Sys<T>)
    requires Inv(s) && s.st[s.cur] == Running
    ensures Ring(DoYield(s)) == Rotate(Ring(s), 1)
    ensures Inv(DoYield(s)) && DoYield(s).st[DoYield(s).cur] == Running
    ensures DoYield(s).st == s.st[s.cur := Ready][DoYield(s).cur := Running]
    ensures DoYield(s).st[DoYield(s).cur := Ready] == s.st[s.cur := Ready]
  {
    YieldKeeps(s);
  }

  lemma RotateNone<T>(q: seq<T>)
    ensures Rotate(q, 0) == q
  {
  }

  lemma RotateMore<T>(q: seq<T>, k: nat)
    requires k < |q|
    ensures |Rotate(q, 1)| == |q| && Rotate(Rotate(q, 1), k) == Rotate(q, k + 1)
  {
  }

  lemma {:induction false} YieldsRotate<T>(s: Sys<T>, k: nat)
    requires Inv(s) && s.st[s.cur] == Running && k <= |s.queue| + 1
    ensures LegalRun(s, Yields(k))
    ensures var r := Run(s, Yields(k));
            Inv(r) && Ring(r) == Rotate(Ring(s), k) && r.st[r.cur] == Running && r.st == s.st[s.cur := Ready][r.cur := Running]
    decreases k
  {
    hide DoYield, Run, LegalRun, Rotate;
    if k == 0 {
      NoYields(s);
      RotateNone(Ring(s));
    } else {
      YieldRotates(s);
      var s1 := DoYield(s);
      RotateMore(Ring(s), k - 1);
      assert |Ring(s1)| == |Ring(s)|;
      YieldsRotate(s1, k - 1);
      YieldsFirst(s, k - 1);
    }
  }

  /**
   With n queued threads, n + 1 yields restore the current thread, the queue and all states exactly
   when the current thread is RUNNING or nothing is queued. A current thread that is not RUNNING
   drops out at the first yield, and the others then take one turn each.
   */
  lemma RoundRobin<T>(s: Sys<T>)
    requires Inv(s)
    ensures LegalRun(s, Yields(|s.queue| + 1))
    ensures Run(s, Yields(|s.queue| + 1)) == s <==> s.queue == [] || s.st[s.cur] == Running
    ensures s.queue != [] && s.st[s.cur] != Running ==> Run(s, Yields(|s.queue| + 1)) == DoYield(s)
  {
    hide Run, LegalRun;
    if s.st[s.cur] == Running {
      FullRound(s);
    } else {
      var n := |s.queue| + 1;
      var s1 := DoYield(s);
      YieldKeeps(s);
      if s.queue == [] {
        NoYields(s);
      } else {
        FullRound(s1);
      }
      YieldsFirst(s, n - 1);
    }
  }

  lemma NoYields<T>(s: Sys<T>)
    requires s.cur in s.st
    ensures LegalRun(s, Yields(0)) && Run(s, Yields(0)) == s
  {
  }

  /** k + 1 yields are a yield and k more. */
  lemma YieldsFirst<T>(s: Sys<T>, k: nat)
    requires s.cur in s.st && DoYield(s).cur in DoYield(s).st && LegalRun(DoYield(s), Yields(k))
    ensures LegalRun(s, Yields(k + 1)) && Run(s, Yields(k + 1)) == Run(DoYield(s), Yields(k))
  {
    hide DoYield;
    assert Yields<T>(k + 1)[1..] == Yields<T>(k);
  }

  lemma FullRound<T>(s: Sys<T>)
    requires Inv(s) && s.st[s.cur] == Running
    ensures LegalRun(s, Yields(|s.queue| + 1))
    ensures Run(s, Yields(|s.queue| + 1)) == s
  {
    hide Do, DoYield, Run;
    var n := |s.queue| + 1;
    YieldsRotate(s, n);
    var r := Run(s, Yields(n));
    FullTurn(Ring(s));
    SameRing(r, s);
    assert s.st[s.cur := Ready][s.cur := Running] == s.st;
  }

  lemma FullTurn<T>(q: seq<T>)
    ensures Rotate(q, |q|) == q
  {
  }

  lemma SameRing<T>(r: Sys<T>, s: Sys<T>)
    requires Ring(r) == Ring(s)
    ensures r.cur == s.cur && r.queue == s.queue
  {
    assert Ring(r)[0] == r.cur && Ring(r)[1..] == r.queue;
    assert Ring(s)[0] == s.cur && Ring(s)[1..] == s.queue;
  }

  /** A new thread beside an idle one: waking it does nothing, adding it queues it, a yield runs it. */
  lemma StartRun<T>(s: Sys<T>, t: T)
    requires s.queue == [] && s.st == map[s.cur := Running] && t != s.cur
    ensures LegalRun(s, [Wake(t), Add(t), Yield])
    ensures Run(s, [Wake(t), Add(t), Yield]) == Sys(t, [s.cur], map[s.cur := Ready, t := Running])
  {
    var ops := [Wake(t), Add(t), Yield];
    assert ops[1..] == [Add(t), Yield] && [Add(t), Yield][1..] == [Op<T>.Yield] && [Op<T>.Yield][1..] == [];
    var s1 := Do(s, Add(t));
    assert s1.queue == [t] && [t][1..] == [] && [] + [s.cur] == [s.cur];
    assert s1.st == map[s.cur := Running, t := Ready];
    assert DoYield(s1).st == map[s.cur := Ready, t := Running];
    assert Run(s1, [Yield]) == DoYield(s1);
  }
}
