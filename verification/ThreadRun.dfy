/**
 Scheduling and context switching together: threads are numbered in the order they are created, the
 run queue decides who goes next, and switch_context goes there. The thread the scheduler makes
 current is the one the processor resumes, with all it had when it left, and its turn comes in time.
 */
module ThreadRun {

  import opened Machine
  import opened Sequences
  import Switch
  import SchedSpec

  type Id = nat

  /** The scheduler's state, and the threads with the processor. */
  datatype Kernel = Kernel(sched: SchedSpec.Sys<Id>, sys: Switch.Sys)

  /** The current thread works, creates a thread, or calls the scheduler, returning to ra if it gives up the processor. */
  datatype Call =
    | Work(c: Switch.Cpu)
    | Spawn(t: Switch.Place, fn: int, arg: int, tramp: int)
    | Sched(op: SchedSpec.Op<Id>, ra: int)

  /** A call that gives up the processor. */
  predicate Yields(c: Call) { c.Sched? && c.op.Switches() }

  ghost predicate Step(arch: Arch, k: Kernel, c: Call, r: Kernel)
  {
    match c
    case Work(cpu) => Switch.Step(arch, k.sys, Switch.Compute(cpu), r.sys) && r.sched == k.sched
    case Spawn(t, fn, arg, tramp) => Switch.Step(arch, k.sys, Switch.Create(t, fn, arg, tramp), r.sys) && r.sched == k.sched
    case Sched(op, ra) =>
      && k.sched.cur in k.sched.st && SchedSpec.Legal(k.sched, op) && (op.Add? ==> op.t < |k.sys.ts|)
      && r.sched == SchedSpec.Do(k.sched, op)
      && (if r.sched.cur == k.sched.cur then r.sys == k.sys
          else Switch.Step(arch, k.sys, Switch.SwitchOut(r.sched.cur, ra), r.sys))
  }

  /** Both parts are in order and agree on who is current, and the scheduler knows only threads there are. */
  ghost predicate Ok(arch: Arch, k: Kernel)
  {
    && SchedSpec.Inv(k.sched) && Switch.SysOk(arch, k.sys)
    && k.sched.cur == k.sys.w.cur
    && (forall t :: t in k.sched.st ==> t < |k.sys.ts|)
  }

  /** sched_init: the idle thread runs and nothing is queued. */
  lemma BootOk(arch: Arch, idle: Switch.Place, c: Switch.Cpu, v: Switch.View)
    requires !idle.Has(idle.slot)
    ensures Ok(arch, Kernel(SchedSpec.Sys(0, [], map[0 := SchedSpec.Running]), Switch.Sys([idle], Switch.World(c, 0, [v]))))
  {
    Switch.BootOk(arch, idle, c, v);
  }

  lemma StepKeeps(arch: Arch, k: Kernel, c: Call, r: Kernel)
    requires Ok(arch, k) && Step(arch, k, c, r)
    ensures Ok(arch, r)
  {
    hide Switch.Step, Switch.SysOk, SchedSpec.Inv, SchedSpec.Legal;
    match c
    case Work(cpu) =>
      Switch.StepKeeps(arch, k.sys, Switch.Compute(cpu), r.sys);
      Switch.StepGrows(arch, k.sys, Switch.Compute(cpu), r.sys);
    case Spawn(t, fn, arg, tramp) =>
      Switch.StepKeeps(arch, k.sys, Switch.Create(t, fn, arg, tramp), r.sys);
      Switch.StepGrows(arch, k.sys, Switch.Create(t, fn, arg, tramp), r.sys);
    case Sched(op, ra) =>
      SchedSpec.StepKeeps(k.sched, op);
      KnownThreads(k.sched, op, |k.sys.ts|);
      if r.sched.cur != k.sched.cur {
        Switch.StepKeeps(arch, k.sys, Switch.SwitchOut(r.sched.cur, ra), r.sys);
        Switch.StepGrows(arch, k.sys, Switch.SwitchOut(r.sched.cur, ra), r.sys);
      }
  }

  /** The scheduler meets no thread but those added to it. */
  lemma KnownThreads(s: SchedSpec.Sys<Id>, op: SchedSpec.Op<Id>, n: nat)
    requires SchedSpec.Inv(s) && (op.Add? ==> op.t < n) && forall t :: t in s.st ==> t < n
    ensures forall t :: t in SchedSpec.Do(s, op).st ==> t < n
    ensures forall t :: t in SchedSpec.Do(s, op).st ==> t in s.st || op == SchedSpec.Add(t)
  {
    hide Distinct;
    assert s.queue != [] ==> s.queue[0] in s.queue;
    SchedSpec.WithoutKeeps(s.queue, s.cur);
    var rest := SchedSpec.Without(s.queue, s.cur);
    assert rest != [] ==> rest[0] in rest;
  }

  ghost predicate Trace(arch: Arch, ks: seq<Kernel>, cs: seq<Call>)
  {
    |ks| == |cs| + 1 && forall i: nat :: i < |cs| ==> StepAt(arch, ks, cs, i)
  }

  ghost predicate StepAt(arch: Arch, ks: seq<Kernel>, cs: seq<Call>, i: nat)
    requires i < |cs| && |ks| == |cs| + 1
  {
    Step(arch, ks[i], cs[i], ks[i + 1])
  }

  /** In every run the scheduler and the processor agree on the current thread. */
  lemma {:induction false} TraceKeeps(arch: Arch, ks: seq<Kernel>, cs: seq<Call>, i: nat)
    requires Trace(arch, ks, cs) && Ok(arch, ks[0]) && i < |ks|
    ensures Ok(arch, ks[i])
    decreases i
  {
    hide Step, Ok;
    if i > 0 {
      TraceKeeps(arch, ks, cs, i - 1);
      assert StepAt(arch, ks, cs, i - 1);
      StepKeeps(arch, ks[i - 1], cs[i - 1], ks[i]);
    }
  }

  // ----- a queued thread gets its turn, and finds everything as it was -----

  /** How many of some calls give up the processor. */
  function Turns(cs: seq<Call>): nat
  {
    if cs == [] then 0 else (if Yields(cs[0]) then 1 else 0) + Turns(cs[1..])
  }

  /** One step while j waits at position p: it moves up, or runs with the view recorded for it. */
  lemma StepAdvances(arch: Arch, k: Kernel, c: Call, r: Kernel, j: Id, p: nat) returns (p2: nat)
    requires Ok(arch, k) && Step(arch, k, c, r) && (c.Sched? ==> c.op != SchedSpec.Remove(j))
    requires p < |k.sched.queue| && k.sched.queue[p] == j
    ensures j < |k.sys.ts| <= |r.sys.ts| && r.sys.ts[j] == k.sys.ts[j] && |k.sys.w.views| == |k.sys.ts| && |r.sys.w.views| == |r.sys.ts|
    ensures r.sys.w.views[j] == k.sys.w.views[j]
    ensures Yields(c) && p == 0 ==>
              r.sched.cur == j && Switch.ViewOf(arch, k.sys.ts[j], r.sys.w.cpu, r.sys.w.cpu.pc) == k.sys.w.views[j]
    ensures !(Yields(c) && p == 0) ==>
              p2 < |r.sched.queue| && r.sched.queue[p2] == j && p2 <= (if Yields(c) then p - 1 else p)
  {
    hide Switch.ViewOf, Switch.AtCall, Switch.Switch, Switch.Holds, Switch.Computes, Switch.Spawn, SchedSpec.Do;
    p2 := p;
    assert j in k.sched.queue && j != k.sched.cur && j in k.sched.st;
    match c
    case Work(cpu) => Switch.StepGrows(arch, k.sys, Switch.Compute(cpu), r.sys);
    case Spawn(t, fn, arg, tramp) => Switch.StepGrows(arch, k.sys, Switch.Create(t, fn, arg, tramp), r.sys);
    case Sched(op, ra) =>
      SchedSpec.StepAdvances(k.sched, op, j, p);
      if r.sched.cur != k.sched.cur {
        Switch.StepGrows(arch, k.sys, Switch.SwitchOut(r.sched.cur, ra), r.sys);
        if r.sched.cur == j { Switch.Resumes(arch, k.sys.ts, k.sys.w, j, ra); }
      }
      if !(op.Switches() && p == 0) {
        if op.Switches() {
          p2 := p - 1;
        } else {
          p2 :| 0 <= p2 <= p && p2 < |r.sched.queue| && r.sched.queue[p2] == j;
        }
      }
  }

  /**
   In every run a thread at position p of the queue that nobody removes runs again by the time the
   running threads have given up the processor p + 1 times, and then has exactly the registers,
   stack pointer, stack and return address recorded when it left.
   */
  lemma {:induction false} RunsInTime(arch: Arch, ks: seq<Kernel>, cs: seq<Call>, i: nat, j: Id, p: nat) returns (m: nat)
    requires Trace(arch, ks, cs) && Ok(arch, ks[0]) && i < |ks|
    requires p < |ks[i].sched.queue| && ks[i].sched.queue[p] == j && Turns(cs[i..]) >= p + 1
    requires forall n :: i <= n < |cs| && cs[n].Sched? ==> cs[n].op != SchedSpec.Remove(j)
    ensures i < m < |ks| && ks[m].sched.cur == ks[m].sys.w.cur == j && Turns(cs[i..m]) <= p + 1
    ensures j < |ks[i].sys.ts| == |ks[i].sys.w.views|
    ensures Switch.ViewOf(arch, ks[i].sys.ts[j], ks[m].sys.w.cpu, ks[m].sys.w.cpu.pc) == ks[i].sys.w.views[j]
    decreases |ks| - i
  {
    hide Step, Switch.ViewOf, SchedSpec.Inv, Switch.SysOk;
    assert cs[|cs|..] == [];
    assert i < |cs|;
    TraceKeeps(arch, ks, cs, i);
    TraceKeeps(arch, ks, cs, i + 1);
    assert StepAt(arch, ks, cs, i);
    var p2 := StepAdvances(arch, ks[i], cs[i], ks[i + 1], j, p);
    assert cs[i..][0] == cs[i] && cs[i..][1..] == cs[i + 1..];
    if Yields(cs[i]) && p == 0 {
      m := i + 1;
      assert cs[i..m] == [cs[i]] && [cs[i]][1..] == [];
    } else {
      m := RunsInTime(arch, ks, cs, i + 1, j, p2);
      assert cs[i..m][0] == cs[i] && cs[i..m][1..] == cs[i + 1..m];
    }
  }

  /**
   A RUNNING thread that yields with n threads queued is back, unless somebody removes it, after at
   most n further times the processor is given up, and returns from its call with the callee-saved
   registers, the stack pointer and the stack it called with.
   */
  lemma YieldReturns(arch: Arch, ks: seq<Kernel>, cs: seq<Call>, i: nat) returns (m: nat)
    requires Trace(arch, ks, cs) && Ok(arch, ks[0]) && i < |cs|
    requires cs[i].Sched? && cs[i].op == SchedSpec.Yield && ks[i].sched.queue != []
    requires ks[i].sched.cur in ks[i].sched.st && ks[i].sched.st[ks[i].sched.cur] == SchedSpec.Running
    requires Turns(cs[i + 1..]) >= |ks[i].sched.queue|
    requires forall n :: i < n < |cs| && cs[n].Sched? ==> cs[n].op != SchedSpec.Remove(ks[i].sched.cur)
    ensures var j, next := ks[i].sched.cur, ks[i].sched.queue[0];
            && i + 1 < m < |ks| && ks[m].sys.w.cur == j && Turns(cs[i + 1..m]) <= |ks[i].sched.queue|
            && ks[i].sys.w.cur == j && j < |ks[i].sys.ts| && next < |ks[i].sys.ts|
            && Switch.ViewOf(arch, ks[i].sys.ts[j], ks[m].sys.w.cpu, ks[m].sys.w.cpu.pc)
               == Switch.ViewOf(arch, ks[i].sys.ts[j], Switch.AtCall(arch, ks[i].sys.ts, ks[i].sys.w, next), cs[i].ra)
  {
    hide Switch.ViewOf, Switch.AtCall, Switch.Switch, Switch.Holds, Switch.Computes, Switch.Spawn, SchedSpec.Legal, Distinct;
    var k, r := ks[i], ks[i + 1];
    TraceKeeps(arch, ks, cs, i);
    assert StepAt(arch, ks, cs, i);
    var j, q := k.sched.cur, k.sched.queue;
    assert q[0] in q && q[0] in k.sched.st;
    assert r.sched.queue == q[1..] + [j] && r.sched.cur == q[0];
    m := RunsInTime(arch, ks, cs, i + 1, j, |q| - 1);
  }

  // ----- a new thread starts in time -----

  /** Until a thread is added, the scheduler does not know it and its record is the one thread_create made. */
  lemma {:induction false} Waiting(arch: Arch, ks: seq<Kernel>, cs: seq<Call>, i: nat, a: nat)
    requires Trace(arch, ks, cs) && Ok(arch, ks[0]) && i < a < |ks| && cs[i].Spawn?
    requires forall n :: i < n < a && cs[n].Sched? ==> cs[n].op != SchedSpec.Add(|ks[i].sys.ts|)
    ensures var j, e := |ks[i].sys.ts|, cs[i];
            && j !in ks[a].sched.st && j < |ks[a].sys.ts| == |ks[a].sys.w.views| && ks[a].sys.ts[j] == e.t
            && ks[a].sys.w.views[j] == Switch.InitialView(arch, e.t, e.fn, e.arg, e.tramp)
    decreases a
  {
    hide Switch.ViewOf, Switch.AtCall, Switch.Switch, Switch.Holds, Switch.Computes, Switch.Created, Switch.InitialView, SchedSpec.Do, Distinct;
    var j := |ks[i].sys.ts|;
    TraceKeeps(arch, ks, cs, a - 1);
    TraceKeeps(arch, ks, cs, a);
    assert StepAt(arch, ks, cs, a - 1);
    if i + 1 < a {
      Waiting(arch, ks, cs, i, a - 1);
      StillWaiting(arch, ks[a - 1], cs[a - 1], ks[a], j);
    }
  }

  lemma StillWaiting(arch: Arch, k: Kernel, c: Call, r: Kernel, j: Id)
    requires Ok(arch, k) && Step(arch, k, c, r) && j !in k.sched.st && j < |k.sys.ts| == |k.sys.w.views|
    requires c.Sched? ==> c.op != SchedSpec.Add(j)
    ensures j !in r.sched.st && j < |r.sys.ts| == |r.sys.w.views|
    ensures r.sys.ts[j] == k.sys.ts[j] && r.sys.w.views[j] == k.sys.w.views[j]
  {
    hide Switch.Step, Switch.SysOk, SchedSpec.Do, SchedSpec.Legal, Distinct;
    match c
    case Work(cpu) => Switch.StepGrows(arch, k.sys, Switch.Compute(cpu), r.sys);
    case Spawn(t, fn, arg, tramp) => Switch.StepGrows(arch, k.sys, Switch.Create(t, fn, arg, tramp), r.sys);
    case Sched(op, ra) =>
      KnownThreads(k.sched, op, |k.sys.ts|);
      if r.sched.cur != k.sched.cur { Switch.StepGrows(arch, k.sys, Switch.SwitchOut(r.sched.cur, ra), r.sys); }
  }

  /**
   A thread created at step i and first added at step a, behind n queued threads, starts by the time
   the processor has been given up n + 1 times: at the trampoline, which calls its function with
   its argument.
   */
  lemma StartsInTime(arch: Arch, ks: seq<Kernel>, cs: seq<Call>, i: nat, a: nat, back: int) returns (m: nat)
    requires Trace(arch, ks, cs) && Ok(arch, ks[0]) && i < a < |cs| && cs[i].Spawn?
    requires cs[a].Sched? && cs[a].op == SchedSpec.Add(|ks[i].sys.ts|)
    requires forall n :: i < n < a && cs[n].Sched? ==> cs[n].op != SchedSpec.Add(|ks[i].sys.ts|)
    requires forall n :: a < n < |cs| && cs[n].Sched? ==> cs[n].op != SchedSpec.Remove(|ks[i].sys.ts|)
    requires Turns(cs[a + 1..]) >= |ks[a].sched.queue| + 1
    ensures a + 1 < m < |ks| && ks[m].sched.cur == |ks[i].sys.ts| && Turns(cs[a + 1..m]) <= |ks[a].sched.queue| + 1
    ensures var d := ks[m].sys.w.cpu;
            d.pc == cs[i].tramp && Switch.Enters(arch, Switch.Run(Switch.Trampoline(arch, back), d), cs[i].fn, cs[i].arg, back)
  {
    hide Switch.Step, Switch.SysOk, Switch.Run, Switch.Enters, SchedSpec.Inv, SchedSpec.Legal, Switch.ViewOf, Switch.InitialView;
    var j, e := |ks[i].sys.ts|, cs[i];
    Waiting(arch, ks, cs, i, a);
    TraceKeeps(arch, ks, cs, a);
    assert StepAt(arch, ks, cs, a);
    assert ks[a + 1].sched.queue == ks[a].sched.queue + [j] && ks[a + 1].sys == ks[a].sys;
    m := RunsInTime(arch, ks, cs, a + 1, j, |ks[a].sched.queue|);
    Entered(arch, e.t, ks[m].sys.w.cpu, e.fn, e.arg, e.tramp, back);
  }

  lemma Entered(arch: Arch, t: Switch.Place, d: Switch.Cpu, fn: int, arg: int, tramp: int, back: int)
    requires Switch.ViewOf(arch, t, d, d.pc) == Switch.InitialView(arch, t, fn, arg, tramp)
    ensures d.pc == tramp && Switch.Enters(arch, Switch.Run(Switch.Trampoline(arch, back), d), fn, arg, back)
  {
    hide Switch.Run, Switch.Enters;
    var stack := Switch.Cells(d.mem, d.sp, t.hi);
    assert stack[0] == fn && stack[1] == arg;
    Switch.TrampolineCalls(arch, d, fn, arg, back);
  }

  // ----- a thread that has exited -----

  /** The thread has exited and left the processor, and this is where it was and what was recorded for it. */
  ghost predicate Dead(k: Kernel, j: Id, t: Switch.Place, v: Switch.View)
  {
    && SchedSpec.Off(k.sched, j, SchedSpec.Zombie)
    && j < |k.sys.ts| == |k.sys.w.views| && k.sys.ts[j] == t && k.sys.w.views[j] == v
  }

  lemma DeadStep(arch: Arch, k: Kernel, c: Call, r: Kernel, j: Id, t: Switch.Place, v: Switch.View)
    requires Ok(arch, k) && Step(arch, k, c, r) && Dead(k, j, t, v) && (c.Sched? ==> c.op != SchedSpec.Add(j))
    ensures Dead(r, j, t, v) && r.sys.w.cur != j
  {
    hide Switch.Step, Switch.SysOk, SchedSpec.Do, SchedSpec.Legal, Distinct, SchedSpec.Inv;
    StepKeeps(arch, k, c, r);
    match c
    case Work(cpu) => Switch.StepGrows(arch, k.sys, Switch.Compute(cpu), r.sys);
    case Spawn(t, fn, arg, tramp) => Switch.StepGrows(arch, k.sys, Switch.Create(t, fn, arg, tramp), r.sys);
    case Sched(op, ra) =>
      SchedSpec.DeadStays(k.sched, op, j);
      if r.sched.cur != k.sched.cur { Switch.StepGrows(arch, k.sys, Switch.SwitchOut(r.sched.cur, ra), r.sys); }
  }

  /** A thread that exits while another is queued never runs again, in any run that does not add it again. */
  lemma {:induction false} ExitIsFinal(arch: Arch, ks: seq<Kernel>, cs: seq<Call>, i: nat, m: nat)
    requires Trace(arch, ks, cs) && Ok(arch, ks[0]) && i < m < |ks|
    requires cs[i].Sched? && cs[i].op == SchedSpec.Exit && ks[i].sched.queue != []
    requires forall n :: i < n < m && cs[n].Sched? ==> cs[n].op != SchedSpec.Add(ks[i].sched.cur)
    ensures SchedSpec.Off(ks[m].sched, ks[i].sched.cur, SchedSpec.Zombie) && ks[m].sys.w.cur != ks[i].sched.cur
    ensures ks[i].sched.cur < |ks[m].sys.ts| == |ks[m].sys.w.views|
    decreases m
  {
    hide Switch.Step, Switch.SysOk, SchedSpec.Do, SchedSpec.Legal, Distinct, SchedSpec.Inv;
    var j := ks[i].sched.cur;
    TraceKeeps(arch, ks, cs, m - 1);
    TraceKeeps(arch, ks, cs, m);
    assert StepAt(arch, ks, cs, m - 1);
    if i + 1 < m {
      ExitIsFinal(arch, ks, cs, i, m - 1);
      var k := ks[m - 1];
      DeadStep(arch, k, cs[m - 1], ks[m], j, k.sys.ts[j], k.sys.w.views[j]);
    } else {
      SchedSpec.ExitLeaves(ks[i].sched);
      Switch.StepGrows(arch, ks[i].sys, Switch.SwitchOut(ks[m].sched.cur, cs[i].ra), ks[m].sys);
      KnownCurrent(arch, ks[i]);
    }
  }

  lemma KnownCurrent(arch: Arch, k: Kernel)
    requires Ok(arch, k)
    ensures k.sched.cur < |k.sys.ts|
  {
  }
}
