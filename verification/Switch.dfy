/**
 Context switching: the instructions of switch_context and thread_trampoline for both
 processors, run on a machine with registers, a stack pointer and memory cells of one word.
 */
module Switch {

  import opened Machine
  import opened Sequences

  datatype Reg = AX | BX | CX | SI | DI | BP | R12 | R13 | R14 | R15

  /** One word per cell; addresses count words. */
  type Mem = int -> int

  type Regs = Reg -> int

  ghost function SetCell(m: Mem, a: int, v: int): (r: Mem)
    ensures forall x: int :: r(x) == if x == a then v else m(x)
  {
    x => if x == a then v else m(x)
  }

  ghost function SetReg(m: Regs, a: Reg, v: int): (r: Regs)
    ensures forall x: Reg :: r(x) == if x == a then v else m(x)
  {
    x => if x == a then v else m(x)
  }

  datatype Cpu = Cpu(regs: Regs, sp: int, pc: int, mem: Mem)

  datatype Instr =
    | Push(r: Reg)
    | Pop(r: Reg)
    | Load(r: Reg, k: nat)    // mov r, [sp + k]
    | StoreSp(r: Reg)         // mov [r], sp
    | SpLoad(k: nat)          // mov sp, [sp + k]
    | SpMove(r: Reg)          // mov sp, r
    | Ret
    | Call(r: Reg, ra: int)   // call r, leaving return address ra

  ghost function PushWord(c: Cpu, v: int): Cpu
  {
    c.(sp := c.sp - 1, mem := SetCell(c.mem, c.sp - 1, v))
  }

  ghost function PopWord(c: Cpu, r: Reg): Cpu
  {
    c.(regs := SetReg(c.regs, r, c.mem(c.sp)), sp := c.sp + 1)
  }

  ghost function LoadWord(c: Cpu, r: Reg, k: nat): Cpu
  {
    c.(regs := SetReg(c.regs, r, c.mem(c.sp + k)))
  }

  ghost function SaveSp(c: Cpu, slot: int): Cpu
  {
    c.(mem := SetCell(c.mem, slot, c.sp))
  }

  ghost function MoveSp(c: Cpu, target: int): Cpu
  {
    c.(sp := target)
  }

  ghost function Exec(i: Instr, c: Cpu): Cpu
  {
    match i
    case Push(r) => PushWord(c, c.regs(r))
    case Pop(r) => PopWord(c, r)
    case Load(r, k) => LoadWord(c, r, k)
    case StoreSp(r) => SaveSp(c, c.regs(r))
    case SpLoad(k) => MoveSp(c, c.mem(c.sp + k))
    case SpMove(r) => MoveSp(c, c.regs(r))
    case Ret => c.(pc := c.mem(c.sp), sp := c.sp + 1)
    case Call(r, ra) => PushWord(c, ra).(pc := c.regs(r))
  }

  ghost function Run(p: seq<Instr>, c: Cpu): Cpu
  {
    if p == [] then c else Run(p[1..], Exec(p[0], c))
  }

  /** switch_context, instruction by instruction; byte offsets 20 and 24 are words 5 and 6. */
  function SwitchContext(arch: Arch): seq<Instr>
  {
    match arch
    case X86 =>
      [Push(BP), Push(BX), Push(SI), Push(DI),
       Load(AX, 5), StoreSp(AX), SpLoad(6),
       Pop(DI), Pop(SI), Pop(BX), Pop(BP), Ret]
    case X64 =>
      [Push(BP), Push(BX), Push(R12), Push(R13), Push(R14), Push(R15),
       StoreSp(DI), SpMove(SI),
       Pop(R15), Pop(R14), Pop(R13), Pop(R12), Pop(BX), Pop(BP), Ret]
  }

  /** thread_trampoline up to its call; ra is the address after it. */
  function Trampoline(arch: Arch, ra: int): seq<Instr>
  {
    match arch
    case X86 => [Pop(AX), Pop(CX), Push(CX), Call(AX, ra)]
    case X64 => [Pop(AX), Pop(DI), Call(AX, ra)]
  }

  /** The callee-saved registers, in the order they are pushed. */
  function Saved(arch: Arch): (rs: seq<Reg>)
    ensures 4 <= |rs| <= 6
  {
    match arch
    case X86 => [BP, BX, SI, DI]
    case X64 => [BP, BX, R12, R13, R14, R15]
  }

  function Middle(arch: Arch): seq<Instr>
  {
    match arch
    case X86 => [Load(AX, 5), StoreSp(AX), SpLoad(6)]
    case X64 => [StoreSp(DI), SpMove(SI)]
  }

  function Pushes(rs: seq<Reg>): (p: seq<Instr>)
    ensures |p| == |rs|
  {
    if rs == [] then [] else [Push(rs[0])] + Pushes(rs[1..])
  }

  /** Pops in the opposite order. */
  function Pops(rs: seq<Reg>): (p: seq<Instr>)
    ensures |p| == |rs|
  {
    if rs == [] then [] else Pops(rs[1..]) + [Pop(rs[0])]
  }

  lemma OneMore(r: Reg, rs: seq<Reg>, all: seq<Reg>, push: seq<Instr>, pop: seq<Instr>)
    requires all == [r] + rs && push == Pushes(rs) && pop == Pops(rs)
    ensures Pushes(all) == [Push(r)] + push && Pops(all) == pop + [Pop(r)]
  {
    assert all[1..] == rs;
  }

  lemma SavedX86()
    ensures Pushes(Saved(X86)) == [Push(BP), Push(BX), Push(SI), Push(DI)]
    ensures Pops(Saved(X86)) == [Pop(DI), Pop(SI), Pop(BX), Pop(BP)]
  {
    hide Pushes, Pops;
    assert Pushes([]) == [] && Pops([]) == [];
    OneMore(DI, [], [DI], [], []);
    OneMore(SI, [DI], [SI, DI], [Push(DI)], [Pop(DI)]);
    OneMore(BX, [SI, DI], [BX, SI, DI], [Push(SI), Push(DI)], [Pop(DI), Pop(SI)]);
    OneMore(BP, [BX, SI, DI], [BP, BX, SI, DI], [Push(BX), Push(SI), Push(DI)], [Pop(DI), Pop(SI), Pop(BX)]);
  }

  lemma SavedX64()
    ensures Pushes(Saved(X64)) == [Push(BP), Push(BX), Push(R12), Push(R13), Push(R14), Push(R15)]
    ensures Pops(Saved(X64)) == [Pop(R15), Pop(R14), Pop(R13), Pop(R12), Pop(BX), Pop(BP)]
  {
    hide Pushes, Pops;
    assert Pushes([]) == [] && Pops([]) == [];
    OneMore(R15, [], [R15], [], []);
    OneMore(R14, [R15], [R14, R15], [Push(R15)], [Pop(R15)]);
    OneMore(R13, [R14, R15], [R13, R14, R15], [Push(R14), Push(R15)], [Pop(R15), Pop(R14)]);
    OneMore(R12, [R13, R14, R15], [R12, R13, R14, R15],
            [Push(R13), Push(R14), Push(R15)], [Pop(R15), Pop(R14), Pop(R13)]);
    OneMore(BX, [R12, R13, R14, R15], [BX, R12, R13, R14, R15],
            [Push(R12), Push(R13), Push(R14), Push(R15)], [Pop(R15), Pop(R14), Pop(R13), Pop(R12)]);
    OneMore(BP, [BX, R12, R13, R14, R15], [BP, BX, R12, R13, R14, R15],
            [Push(BX), Push(R12), Push(R13), Push(R14), Push(R15)],
            [Pop(R15), Pop(R14), Pop(R13), Pop(R12), Pop(BX)]);
  }

  /** Both programs push the saved registers, exchange stacks, pop them in the opposite order and return. */
  lemma SwitchContextShape(arch: Arch)
    ensures SwitchContext(arch) == Pushes(Saved(arch)) + Middle(arch) + Pops(Saved(arch)) + [Ret]
  {
    hide Pushes, Pops;
    SavedX86();
    SavedX64();
  }

  lemma {:induction false} RunConcat(p: seq<Instr>, q: seq<Instr>, c: Cpu)
    ensures Run(p + q, c) == Run(q, Run(p, c))
    decreases |p|
  {
    if p == [] {
      assert p + q == q;
    } else {
      assert (p + q)[1..] == p[1..] + q;
      RunConcat(p[1..], q, Exec(p[0], c));
    }
  }

  /** The values of some registers. */
  ghost function Values(rs: seq<Reg>, regs: Regs): (s: seq<int>)
    ensures |s| == |rs| && forall k :: 0 <= k < |s| ==> s[k] == regs(rs[k])
  {
    seq(|rs|, k requires 0 <= k < |rs| => regs(rs[k]))
  }

  /** vs is stored downwards from the cell below top. */
  ghost predicate Stored(mem: Mem, top: int, vs: seq<int>)
  {
    forall k :: 0 <= k < |vs| ==> mem(top - 1 - k) == vs[k]
  }

  lemma StoredUnique(mem: Mem, top: int, vs: seq<int>, us: seq<int>)
    requires Stored(mem, top, vs) && Stored(mem, top, us) && |vs| == |us|
    ensures vs == us
  {
    forall k | 0 <= k < |vs| ensures vs[k] == us[k] {
      assert mem(top - 1 - k) == vs[k];
    }
  }

  lemma StoredKept(m: Mem, n: Mem, top: int, vs: seq<int>)
    requires Stored(m, top, vs)
    requires forall a: int :: top - |vs| <= a < top ==> m(a) == n(a)
    ensures Stored(n, top, vs)
  {
  }

  lemma StoredCons(mem: Mem, top: int, v: int, vs: seq<int>)
    requires mem(top - 1) == v && Stored(mem, top - 1, vs)
    ensures Stored(mem, top, [v] + vs)
  {
    var all := [v] + vs;
    forall k | 0 <= k < |all| ensures mem(top - 1 - k) == all[k] {
      if k > 0 { assert mem(top - 1 - 1 - (k - 1)) == vs[k - 1]; }
    }
  }

  lemma ValuesCons(rs: seq<Reg>, regs: Regs)
    requires rs != []
    ensures Values(rs, regs) == [regs(rs[0])] + Values(rs[1..], regs)
  {
  }

  /** Pushing registers stores them downwards below the stack pointer and changes nothing else. */
  lemma {:induction false} RunPushes(rs: seq<Reg>, c: Cpu)
    ensures var d := Run(Pushes(rs), c);
            && d.regs == c.regs && d.pc == c.pc && d.sp == c.sp - |rs|
            && Stored(d.mem, c.sp, Values(rs, c.regs))
            && (forall a: int :: !(c.sp - |rs| <= a < c.sp) ==> d.mem(a) == c.mem(a))
    decreases |rs|
  {
    if rs != [] {
      hide Run, Stored;
      var e := Exec(Push(rs[0]), c);
      RunOne(Push(rs[0]), c);
      RunConcat([Push(rs[0])], Pushes(rs[1..]), c);
      RunPushes(rs[1..], e);
      ValuesCons(rs, c.regs);
      StoredCons(Run(Pushes(rs), c).mem, c.sp, c.regs(rs[0]), Values(rs[1..], c.regs));
    }
  }

  lemma RunOne(i: Instr, c: Cpu)
    ensures Run([i], c) == Exec(i, c)
  {
    assert [i][1..] == [];
  }

  /** Setting a register that is not listed leaves the listed values alone. */
  lemma ValuesOther(rs: seq<Reg>, regs: Regs, r: Reg, v: int)
    requires r !in rs
    ensures Values(rs, SetReg(regs, r, v)) == Values(rs, regs)
  {
  }

  /** Popping in the opposite order loads them back and leaves memory alone. */
  lemma {:induction false} RunPops(rs: seq<Reg>, c: Cpu)
    requires Distinct(rs)
    ensures var d := Run(Pops(rs), c);
            && d.mem == c.mem && d.pc == c.pc && d.sp == c.sp + |rs|
            && Stored(c.mem, c.sp + |rs|, Values(rs, d.regs))
    decreases |rs|
  {
    if rs != [] {
      hide Run, Stored, Exec, Values, Distinct, SetReg;
      DistinctTail(rs);
      RunPops(rs[1..], c);
      var e := Run(Pops(rs[1..]), c);
      RunConcat(Pops(rs[1..]), [Pop(rs[0])], c);
      RunOne(Pop(rs[0]), e);
      ExecPop(rs[0], e);
      ValuesOther(rs[1..], e.regs, rs[0], c.mem(e.sp));
      ValuesCons(rs, PopWord(e, rs[0]).regs);
      StoredCons(c.mem, c.sp + |rs|, c.mem(e.sp), Values(rs[1..], e.regs));
    }
  }

  // ----- one switch -----

  /** Words switch_context keeps below the stack pointer of its caller: registers and return address. */
  function FrameWords(arch: Arch): nat { |Saved(arch)| + 1 }

  /** Words of arguments the caller pushes. */
  function ArgWords(arch: Arch): nat { if arch.X86? then 2 else 0 }

  /** The caller's side of switch_context(slot, target): pass the arguments. */
  ghost function PassArgs(arch: Arch, c: Cpu, slot: int, target: int): Cpu
  {
    match arch
    case X86 => PushWord(PushWord(c, target), slot)
    case X64 => c.(regs := SetReg(SetReg(c.regs, DI, slot), SI, target))
  }

  /** Call switch_context with return address ra and run it to its end. */
  ghost function Switch(arch: Arch, c: Cpu, ra: int): Cpu
  {
    Run(SwitchContext(arch), PushWord(c, ra))
  }

  /** The arguments are where switch_context looks for them. */
  ghost predicate HasArgs(arch: Arch, c: Cpu, slot: int, target: int)
  {
    match arch
    case X86 => c.mem(c.sp) == slot && c.mem(c.sp + 1) == target
    case X64 => c.regs(DI) == slot && c.regs(SI) == target
  }

  /**
   What one switch does to the processor: it writes the frame below the old stack pointer and
   the slot, and takes registers and program counter from the frame at the target stack pointer.
   */
  ghost predicate Switched(arch: Arch, c: Cpu, d: Cpu, ra: int, slot: int, target: int)
  {
    var n := |Saved(arch)|;
    && d.mem(slot) == c.sp - FrameWords(arch)
    && d.mem(c.sp - 1) == ra
    && Stored(d.mem, c.sp - 1, Values(Saved(arch), c.regs))
    && (forall a: int :: a != slot && !(c.sp - FrameWords(arch) <= a < c.sp) ==> d.mem(a) == c.mem(a))
    && d.sp == target + FrameWords(arch)
    && d.pc == d.mem(target + n)
    && Stored(d.mem, target + n, Values(Saved(arch), d.regs))
  }

  lemma SwitchEffect(arch: Arch, c: Cpu, ra: int, slot: int, target: int)
    requires HasArgs(arch, c, slot, target)
    requires !(c.sp - FrameWords(arch) <= slot < c.sp + ArgWords(arch))
    ensures Switched(arch, c, Switch(arch, c, ra), ra, slot, target)
  {
    hide Pushes, Pops, Run, SwitchContext, Middle, Exec, Stored, Values, Saved, Framed, HasArgs;
    var rs := Saved(arch);
    var c1 := PushWord(c, ra);
    SwitchSteps(arch, c1);
    AfterPushes(rs, c, ra);
    var c2 := Run(Pushes(rs), c1);
    ArgsSeen(arch, c, c2, slot, target);
    MiddleEffect(arch, c2, slot, target);
    var c3 := Run(Middle(arch), c2);
    FrameKept(|rs|, c.sp, ra, slot, c.mem, c2.mem, c3.mem, Values(rs, c.regs));
    SavedDistinct(arch);
    RunPops(rs, c3);
  }

  /** The return address and the registers below it are on the stack, and nothing else changed. */
  ghost predicate Framed(n: nat, sp: int, ra: int, m0: Mem, m: Mem, vs: seq<int>)
  {
    && m(sp - 1) == ra && Stored(m, sp - 1, vs)
    && forall a: int :: !(sp - n - 1 <= a < sp) ==> m(a) == m0(a)
  }

  lemma AfterPushes(rs: seq<Reg>, c: Cpu, ra: int)
    ensures var d := Run(Pushes(rs), PushWord(c, ra));
            && d.regs == c.regs && d.sp == c.sp - 1 - |rs|
            && Framed(|rs|, c.sp, ra, c.mem, d.mem, Values(rs, c.regs))
  {
    hide Pushes, Run, Stored, Values;
    RunPushes(rs, PushWord(c, ra));
  }

  /** Saving the stack pointer outside the frame keeps the frame. */
  lemma FrameKept(n: nat, sp: int, ra: int, slot: int, m0: Mem, m2: Mem, m3: Mem, vs: seq<int>)
    requires |vs| == n && !(sp - n - 1 <= slot < sp)
    requires Framed(n, sp, ra, m0, m2, vs)
    requires m3 == SetCell(m2, slot, sp - 1 - n)
    ensures m3(slot) == sp - 1 - n && m3(sp - 1) == ra && Stored(m3, sp - 1, vs)
    ensures forall a: int :: a != slot && !(sp - n - 1 <= a < sp) ==> m3(a) == m0(a)
  {
    StoredKept(m2, m3, sp - 1, vs);
  }

  /** Past its own pushes, switch_context finds the arguments. */
  lemma ArgsSeen(arch: Arch, c: Cpu, d: Cpu, slot: int, target: int)
    requires HasArgs(arch, c, slot, target)
    requires !(c.sp - FrameWords(arch) <= slot < c.sp + ArgWords(arch))
    requires d.regs == c.regs && d.sp == c.sp - FrameWords(arch)
    requires exists ra, vs :: Framed(|Saved(arch)|, c.sp, ra, c.mem, d.mem, vs)
    ensures arch.X86? ==> d.mem(d.sp + 5) == slot && d.mem(d.sp + 6) == target && slot != d.sp + 6
    ensures arch.X64? ==> d.regs(DI) == slot && d.regs(SI) == target
  {
  }

  lemma SavedDistinct(arch: Arch)
    ensures Distinct(Saved(arch))
  {
  }

  lemma SwitchSteps(arch: Arch, c: Cpu)
    ensures var d := Run(Pops(Saved(arch)), Run(Middle(arch), Run(Pushes(Saved(arch)), c)));
            Run(SwitchContext(arch), c) == d.(pc := d.mem(d.sp), sp := d.sp + 1)
  {
    hide Pushes, Pops, Run, SwitchContext, Middle, Exec;
    var rs := Saved(arch);
    SwitchContextShape(arch);
    RunConcat(Pushes(rs) + Middle(arch) + Pops(rs), [Ret], c);
    RunConcat(Pushes(rs) + Middle(arch), Pops(rs), c);
    RunConcat(Pushes(rs), Middle(arch), c);
    RunOne(Ret, Run(Pops(rs), Run(Middle(arch), Run(Pushes(rs), c))));
    ExecRet(Run(Pops(rs), Run(Middle(arch), Run(Pushes(rs), c))));
  }

  lemma ExecRet(c: Cpu)
    ensures Exec(Ret, c) == c.(pc := c.mem(c.sp), sp := c.sp + 1)
  {
  }

  /** Between the pushes and the pops the stack pointer is saved in the slot and replaced. */
  lemma MiddleEffect(arch: Arch, c: Cpu, slot: int, target: int)
    requires arch.X86? ==> c.mem(c.sp + 5) == slot && c.mem(c.sp + 6) == target && slot != c.sp + 6
    requires arch.X64? ==> c.regs(DI) == slot && c.regs(SI) == target
    ensures Run(Middle(arch), c).mem == SetCell(c.mem, slot, c.sp)
    ensures Run(Middle(arch), c).sp == target && Run(Middle(arch), c).pc == c.pc
  {
    if arch.X86? { MiddleX86(c, slot, target); } else { MiddleX64(c, slot, target); }
  }

  lemma RunThree(i: Instr, j: Instr, k: Instr, c: Cpu)
    ensures Run([i, j, k], c) == Exec(k, Exec(j, Exec(i, c)))
  {
    hide Exec;
    assert [i, j, k][1..] == [j, k];
    assert [j, k][1..] == [k];
    RunOne(k, Exec(j, Exec(i, c)));
  }

  lemma MiddleX86(c: Cpu, slot: int, target: int)
    requires c.mem(c.sp + 5) == slot && c.mem(c.sp + 6) == target && slot != c.sp + 6
    ensures Run(Middle(X86), c) == c.(regs := SetReg(c.regs, AX, slot), mem := SetCell(c.mem, slot, c.sp), sp := target)
  {
    hide Run;
    RunThree(Load(AX, 5), StoreSp(AX), SpLoad(6), c);
  }

  lemma MiddleX64(c: Cpu, slot: int, target: int)
    requires c.regs(DI) == slot && c.regs(SI) == target
    ensures Run(Middle(X64), c) == c.(mem := SetCell(c.mem, slot, c.sp), sp := target)
  {
    hide Run;
    RunConcat([StoreSp(DI)], [SpMove(SI)], c);
    RunOne(StoreSp(DI), c);
    RunOne(SpMove(SI), Exec(StoreSp(DI), c));
    assert [StoreSp(DI)] + [SpMove(SI)] == Middle(X64);
  }

  // ----- many threads -----

  /** Where a thread's stack lies, and the cell of its control block that holds its saved sp. */
  datatype Place = Place(lo: int, hi: int, slot: int) {
    predicate Has(a: int) { lo <= a < hi }
  }

  /** Stacks do not overlap, and no saved-sp cell lies in a stack or is shared. */
  predicate LayoutOk(ts: seq<Place>)
  {
    && (forall i, j :: 0 <= i < |ts| && 0 <= j < |ts| && i != j ==>
          (ts[i].hi <= ts[j].lo || ts[j].hi <= ts[i].lo) && ts[i].slot != ts[j].slot)
    && (forall i, j :: 0 <= i < |ts| && 0 <= j < |ts| ==> !ts[j].Has(ts[i].slot))
  }

  /** All a thread can tell when it comes back: callee-saved registers, pc, sp and the stack above sp. */
  datatype View = View(regs: seq<int>, pc: int, sp: int, stack: seq<int>)

  ghost function Cells(mem: Mem, lo: int, hi: int): (s: seq<int>)
    ensures |s| == if lo <= hi then hi - lo else 0
    ensures forall k :: 0 <= k < |s| ==> s[k] == mem(lo + k)
  {
    if lo <= hi then seq(hi - lo, k => mem(lo + k)) else []
  }

  ghost function ViewOf(arch: Arch, t: Place, c: Cpu, pc: int): View
  {
    View(Values(Saved(arch), c.regs), pc, c.sp, Cells(c.mem, c.sp, t.hi))
  }

  /** Memory holds, for a thread that is not running, exactly the view v. */
  ghost predicate Holds(arch: Arch, t: Place, mem: Mem, v: View)
  {
    var n := |Saved(arch)|;
    && t.lo <= v.sp - FrameWords(arch) && v.sp <= t.hi
    && |v.regs| == n
    && mem(t.slot) == v.sp - FrameWords(arch)
    && mem(v.sp - 1) == v.pc
    && Stored(mem, v.sp - 1, v.regs)
    && Cells(mem, v.sp, t.hi) == v.stack
  }

  /** Running threads and the views recorded when each of the others was switched out. */
  datatype World = World(cpu: Cpu, cur: nat, views: seq<View>)

  ghost predicate Inv(arch: Arch, ts: seq<Place>, w: World)
  {
    && LayoutOk(ts)
    && |w.views| == |ts| && w.cur < |ts|
    && forall i :: 0 <= i < |ts| && i != w.cur ==> Holds(arch, ts[i], w.cpu.mem, w.views[i])
  }

  /** The current thread runs for a while, writing neither other stacks nor saved-sp cells. */
  ghost predicate Computes(ts: seq<Place>, w: World, c: Cpu)
  {
    forall i, a :: 0 <= i < |ts| && i != w.cur && (ts[i].Has(a) || a == ts[i].slot) ==> c.mem(a) == w.cpu.mem(a)
  }

  /** Room on the current stack for the arguments and the frame of a switch. */
  predicate HasRoom(arch: Arch, t: Place, sp: int)
  {
    t.lo <= sp - ArgWords(arch) - FrameWords(arch) && sp <= t.hi
  }

  /** The state in which the current thread calls switch_context to go to thread j. */
  ghost function AtCall(arch: Arch, ts: seq<Place>, w: World, j: nat): Cpu
    requires w.cur < |ts| && j < |ts|
  {
    PassArgs(arch, w.cpu, ts[w.cur].slot, w.cpu.mem(ts[j].slot))
  }

  ghost function SwitchTo(arch: Arch, ts: seq<Place>, w: World, j: nat, ra: int): World
    requires w.cur < |ts| && j < |ts| && |w.views| == |ts|
  {
    var c := AtCall(arch, ts, w, j);
    World(Switch(arch, c, ra), j, w.views[w.cur := ViewOf(arch, ts[w.cur], c, ra)])
  }

  /** Neither passing the arguments nor the switch writes to another thread's stack or slot. */
  lemma OthersHold(arch: Arch, ts: seq<Place>, i: nat, cur: nat, m: Mem, c: Cpu, d: Cpu, ra: int, target: int, v: View)
    requires LayoutOk(ts) && i < |ts| && cur < |ts| && i != cur
    requires Prepared(arch, ts[cur], m, c) && Switched(arch, c, d, ra, ts[cur].slot, target)
    requires Holds(arch, ts[i], m, v)
    ensures Holds(arch, ts[i], d.mem, v)
  {
    hide Stored, Values, Saved;
    forall a: int | ts[i].Has(a) || a == ts[i].slot ensures m(a) == d.mem(a) {
      assert !ts[cur].Has(ts[i].slot) && !ts[i].Has(ts[cur].slot);
      assert !ts[cur].Has(a) && a != ts[cur].slot;
    }
    StoredKept(m, d.mem, v.sp - 1, v.regs);
    assert Cells(d.mem, v.sp, ts[i].hi) == Cells(m, v.sp, ts[i].hi);
  }

  lemma CallKeeps(arch: Arch, ts: seq<Place>, w: World, j: nat)
    requires Inv(arch, ts, w) && j < |ts| && j != w.cur
    requires HasRoom(arch, ts[w.cur], w.cpu.sp)
    ensures var c := AtCall(arch, ts, w, j);
            && HasArgs(arch, c, ts[w.cur].slot, w.cpu.mem(ts[j].slot))
            && c.sp == w.cpu.sp - ArgWords(arch)
            && (forall a: int :: !ts[w.cur].Has(a) ==> c.mem(a) == w.cpu.mem(a))
  {
  }

  /**
   Resuming: whoever is switched to gets back exactly the view recorded when it was switched
   out, the invariant is kept, and the view of the thread that leaves is recorded.
   */
  lemma Resumes(arch: Arch, ts: seq<Place>, w: World, j: nat, ra: int)
    requires Inv(arch, ts, w) && j < |ts| && j != w.cur
    requires HasRoom(arch, ts[w.cur], w.cpu.sp)
    ensures var r := SwitchTo(arch, ts, w, j, ra);
            Inv(arch, ts, r) && ViewOf(arch, ts[j], r.cpu, r.cpu.pc) == w.views[j]
  {
    hide Switch, PassArgs, Holds, ViewOf, Cells, Stored, Values, LayoutOk, AtCall, Saved, Switched, HasRoom;
    SwitchFacts(arch, ts, w, j, ra);
    var c := AtCall(arch, ts, w, j);
    var d := Switch(arch, c, ra);
    var target := w.cpu.mem(ts[j].slot);
    forall i | 0 <= i < |ts| && i != w.cur ensures Holds(arch, ts[i], d.mem, w.views[i]) {
      OthersHold(arch, ts, i, w.cur, w.cpu.mem, c, d, ra, target, w.views[i]);
    }
    LeaverHolds(arch, ts[w.cur], c, d, ra, target);
    HeldSp(arch, ts[j], w.cpu.mem, w.views[j]);
    ReturnsView(arch, ts[j], c, d, ra, ts[w.cur].slot, w.views[j]);
  }

  /** The arguments lie in the current stack, with room for the frame below them. */
  ghost predicate Prepared(arch: Arch, t: Place, m: Mem, c: Cpu)
  {
    && t.lo <= c.sp - FrameWords(arch) && c.sp <= t.hi && !t.Has(t.slot)
    && (forall a: int :: !t.Has(a) ==> c.mem(a) == m(a))
  }

  /** SwitchEffect for a switch between two threads of a layout. */
  lemma SwitchFacts(arch: Arch, ts: seq<Place>, w: World, j: nat, ra: int)
    requires Inv(arch, ts, w) && j < |ts| && j != w.cur
    requires HasRoom(arch, ts[w.cur], w.cpu.sp)
    ensures var c := AtCall(arch, ts, w, j);
            && Prepared(arch, ts[w.cur], w.cpu.mem, c)
            && Switched(arch, c, Switch(arch, c, ra), ra, ts[w.cur].slot, w.cpu.mem(ts[j].slot))
  {
    hide Switch, PassArgs, Holds, Stored, Values, AtCall, Saved, HasArgs, Switched;
    CallKeeps(arch, ts, w, j);
    var c := AtCall(arch, ts, w, j);
    assert !ts[w.cur].Has(ts[w.cur].slot);
    SlotOutside(arch, ts[w.cur], c.sp, w.cpu.sp);
    SwitchEffect(arch, c, ra, ts[w.cur].slot, w.cpu.mem(ts[j].slot));
  }

  lemma HeldSp(arch: Arch, t: Place, mem: Mem, v: View)
    requires Holds(arch, t, mem, v)
    ensures mem(t.slot) == v.sp - FrameWords(arch)
  {
  }

  lemma SlotOutside(arch: Arch, t: Place, sp: int, top: int)
    requires sp == top - ArgWords(arch) && HasRoom(arch, t, top) && !t.Has(t.slot)
    ensures !(sp - FrameWords(arch) <= t.slot < sp + ArgWords(arch))
  {
  }

  /** After the switch, memory holds the view of the thread that left. */
  lemma LeaverHolds(arch: Arch, t: Place, c: Cpu, d: Cpu, ra: int, target: int)
    requires t.lo <= c.sp - FrameWords(arch) && c.sp <= t.hi && !t.Has(t.slot)
    requires Switched(arch, c, d, ra, t.slot, target)
    ensures Holds(arch, t, d.mem, ViewOf(arch, t, c, ra))
  {
    assert Cells(d.mem, c.sp, t.hi) == Cells(c.mem, c.sp, t.hi);
  }

  /** A processor loaded from a held frame shows the held view. */
  lemma ReturnsView(arch: Arch, t: Place, c: Cpu, d: Cpu, ra: int, slot: int, v: View)
    requires Holds(arch, t, d.mem, v)
    requires Switched(arch, c, d, ra, slot, v.sp - FrameWords(arch))
    ensures ViewOf(arch, t, d, d.pc) == v
  {
    StoredUnique(d.mem, v.sp - 1, v.regs, Values(Saved(arch), d.regs));
  }

  // ----- the first switch into a new thread -----

  /** The initial stack of thread_create: arg, fn, the trampoline, then a zero per saved register. */
  ghost function InitialStack(m: Mem, hi: int, fn: int, arg: int, tramp: int, n: nat): Mem
  {
    Zeros(SetCell(SetCell(SetCell(m, hi - 1, arg), hi - 2, fn), hi - 3, tramp), hi - 3, n)
  }

  /** n zeros pushed downwards from top. */
  ghost function Zeros(m: Mem, top: int, n: nat): (r: Mem)
    ensures forall a: int :: r(a) == if top - n <= a < top then 0 else m(a)
  {
    if n == 0 then m else SetCell(Zeros(m, top, n - 1), top - n, 0)
  }

  /** Memory after thread_create has also stored the stack pointer in the control block. */
  ghost function Created(arch: Arch, t: Place, m: Mem, fn: int, arg: int, tramp: int): Mem
  {
    var n := |Saved(arch)|;
    SetCell(InitialStack(m, t.hi, fn, arg, tramp, n), t.slot, t.hi - 3 - n)
  }

  function InitialView(arch: Arch, t: Place, fn: int, arg: int, tramp: int): View
  {
    View(seq(|Saved(arch)|, k => 0), tramp, t.hi - 2, [fn, arg])
  }

  /** thread_create leaves a thread that looks switched out in front of the trampoline. */
  lemma CreatedHolds(arch: Arch, t: Place, m: Mem, fn: int, arg: int, tramp: int)
    requires t.lo + 2 + FrameWords(arch) <= t.hi && !t.Has(t.slot)
    ensures Holds(arch, t, Created(arch, t, m, fn, arg, tramp), InitialView(arch, t, fn, arg, tramp))
  {
    var mem := Created(arch, t, m, fn, arg, tramp);
    assert Cells(mem, t.hi - 2, t.hi) == [fn, arg];
  }

  /** The function and its argument are where the calling convention has them. */
  ghost predicate Enters(arch: Arch, c: Cpu, fn: int, arg: int, ra: int)
  {
    && c.pc == fn && c.mem(c.sp) == ra
    && (arch.X86? ==> c.mem(c.sp + 1) == arg)
    && (arch.X64? ==> c.regs(DI) == arg)
  }

  lemma TrampolineCalls(arch: Arch, c: Cpu, fn: int, arg: int, ra: int)
    requires c.mem(c.sp) == fn && c.mem(c.sp + 1) == arg
    ensures Enters(arch, Run(Trampoline(arch, ra), c), fn, arg, ra)
  {
    if arch.X86? { TrampolineX86(c, fn, arg, ra); } else { TrampolineX64(c, fn, arg, ra); }
  }

  lemma TrampolineX86(c: Cpu, fn: int, arg: int, ra: int)
    requires c.mem(c.sp) == fn && c.mem(c.sp + 1) == arg
    ensures Enters(X86, Run(Trampoline(X86, ra), c), fn, arg, ra)
  {
    hide Run, Exec;
    var c1, c2 := PopWord(c, AX), PopWord(PopWord(c, AX), CX);
    var c3 := PushWord(c2, arg);
    ExecPop(AX, c);
    ExecPop(CX, c1);
    ExecPush(CX, c2);
    ExecCall(AX, ra, c3);
    RunThree(Pop(AX), Pop(CX), Push(CX), c);
    RunConcat([Pop(AX), Pop(CX), Push(CX)], [Call(AX, ra)], c);
    RunOne(Call(AX, ra), c3);
    assert [Pop(AX), Pop(CX), Push(CX)] + [Call(AX, ra)] == Trampoline(X86, ra);
  }

  lemma TrampolineX64(c: Cpu, fn: int, arg: int, ra: int)
    requires c.mem(c.sp) == fn && c.mem(c.sp + 1) == arg
    ensures Enters(X64, Run(Trampoline(X64, ra), c), fn, arg, ra)
  {
    hide Run, Exec;
    var c1, c2 := PopWord(c, AX), PopWord(PopWord(c, AX), DI);
    ExecPop(AX, c);
    ExecPop(DI, c1);
    ExecCall(AX, ra, c2);
    RunThree(Pop(AX), Pop(DI), Call(AX, ra), c);
  }

  lemma ExecPop(r: Reg, c: Cpu)
    ensures Exec(Pop(r), c) == PopWord(c, r)
  {
  }

  lemma ExecPush(r: Reg, c: Cpu)
    ensures Exec(Push(r), c) == PushWord(c, c.regs(r))
  {
  }

  lemma ExecCall(r: Reg, ra: int, c: Cpu)
    ensures Exec(Call(r, ra), c) == PushWord(c, ra).(pc := c.regs(r))
  {
  }

  /**
   The first switch into a created thread arrives at the trampoline, and the trampoline calls
   the thread's function with the thread's argument.
   */
  lemma FirstSwitch(arch: Arch, ts: seq<Place>, w: World, j: nat, ra: int, fn: int, arg: int, tramp: int, back: int)
    requires Inv(arch, ts, w) && j < |ts| && j != w.cur && HasRoom(arch, ts[w.cur], w.cpu.sp)
    requires w.views[j] == InitialView(arch, ts[j], fn, arg, tramp)
    ensures var d := SwitchTo(arch, ts, w, j, ra).cpu;
            d.pc == tramp && Enters(arch, Run(Trampoline(arch, back), d), fn, arg, back)
  {
    hide Run, Switch, AtCall, Holds;
    Resumes(arch, ts, w, j, ra);
    var d := SwitchTo(arch, ts, w, j, ra).cpu;
    var stack := Cells(d.mem, d.sp, ts[j].hi);
    assert stack[0] == fn && stack[1] == arg;
    TrampolineCalls(arch, d, fn, arg, back);
  }

  // ----- whole runs -----

  /** The threads there are, and the world they share. */
  datatype Sys = Sys(ts: seq<Place>, w: World)

  /** The current thread works, calls switch_context, or calls thread_create. */
  datatype Event =
    | Compute(c: Cpu)
    | SwitchOut(j: nat, ra: int)
    | Create(t: Place, fn: int, arg: int, tramp: int)

  /** The stack and control block of a new thread lie apart from all others, with room for the first frame. */
  predicate RoomFor(arch: Arch, ts: seq<Place>, t: Place)
  {
    LayoutOk(ts + [t]) && t.lo + 2 + FrameWords(arch) <= t.hi
  }

  ghost function Spawn(arch: Arch, s: Sys, t: Place, fn: int, arg: int, tramp: int): Sys
  {
    Sys(s.ts + [t], World(s.w.cpu.(mem := Created(arch, t, s.w.cpu.mem, fn, arg, tramp)), s.w.cur,
                          s.w.views + [InitialView(arch, t, fn, arg, tramp)]))
  }

  ghost predicate SysOk(arch: Arch, s: Sys) { Inv(arch, s.ts, s.w) }

  ghost predicate Step(arch: Arch, s: Sys, e: Event, r: Sys)
  {
    && s.w.cur < |s.ts| && |s.w.views| == |s.ts|
    && match e
       case Compute(c) => Computes(s.ts, s.w, c) && r == s.(w := s.w.(cpu := c))
       case SwitchOut(j, ra) =>
         && j < |s.ts| && j != s.w.cur && HasRoom(arch, s.ts[s.w.cur], s.w.cpu.sp)
         && r == s.(w := SwitchTo(arch, s.ts, s.w, j, ra))
       case Create(t, fn, arg, tramp) => RoomFor(arch, s.ts, t) && r == Spawn(arch, s, t, fn, arg, tramp)
  }

  ghost predicate Trace(arch: Arch, ss: seq<Sys>, es: seq<Event>)
  {
    |ss| == |es| + 1 && forall k: nat :: k < |es| ==> StepAt(arch, ss, es, k)
  }

  ghost predicate StepAt(arch: Arch, ss: seq<Sys>, es: seq<Event>, k: nat)
    requires k < |es| && |ss| == |es| + 1
  {
    Step(arch, ss[k], es[k], ss[k + 1])
  }

  /** At boot one thread runs and holds nothing yet. */
  lemma BootOk(arch: Arch, idle: Place, c: Cpu, v: View)
    requires !idle.Has(idle.slot)
    ensures SysOk(arch, Sys([idle], World(c, 0, [v])))
  {
  }

  /** thread_create adds a thread that is switched out in front of the trampoline, and disturbs no other. */
  lemma SpawnKeeps(arch: Arch, s: Sys, t: Place, fn: int, arg: int, tramp: int)
    requires SysOk(arch, s) && RoomFor(arch, s.ts, t)
    ensures SysOk(arch, Spawn(arch, s, t, fn, arg, tramp))
  {
    hide Holds, Created, InitialView;
    var n, all := |s.ts|, s.ts + [t];
    var mem := Created(arch, t, s.w.cpu.mem, fn, arg, tramp);
    assert all[n] == t;
    CreatedHolds(arch, t, s.w.cpu.mem, fn, arg, tramp);
    forall i | 0 <= i < n && i != s.w.cur ensures Holds(arch, s.ts[i], mem, s.w.views[i]) {
      assert all[i] == s.ts[i];
      CreatedApart(arch, t, s.w.cpu.mem, fn, arg, tramp, s.ts[i]);
      StillHolds(arch, s.ts[i], s.w.cpu.mem, mem, s.w.views[i]);
    }
  }

  lemma CreatedApart(arch: Arch, t: Place, m: Mem, fn: int, arg: int, tramp: int, u: Place)
    requires t.lo + 2 + FrameWords(arch) <= t.hi
    requires (t.hi <= u.lo || u.hi <= t.lo) && t.slot != u.slot && !t.Has(u.slot) && !u.Has(t.slot)
    ensures forall a: int :: u.Has(a) || a == u.slot ==> Created(arch, t, m, fn, arg, tramp)(a) == m(a)
  {
  }

  lemma StepKeeps(arch: Arch, s: Sys, e: Event, r: Sys)
    requires SysOk(arch, s) && Step(arch, s, e, r)
    ensures SysOk(arch, r)
  {
    match e
    case Compute(c) =>
      forall i | 0 <= i < |s.ts| && i != s.w.cur ensures Holds(arch, s.ts[i], c.mem, s.w.views[i]) {
        StillHolds(arch, s.ts[i], s.w.cpu.mem, c.mem, s.w.views[i]);
      }
    case SwitchOut(j, ra) => Resumes(arch, s.ts, s.w, j, ra);
    case Create(t, fn, arg, tramp) => SpawnKeeps(arch, s, t, fn, arg, tramp);
  }

  lemma StillHolds(arch: Arch, t: Place, m: Mem, n: Mem, v: View)
    requires Holds(arch, t, m, v)
    requires forall a: int :: t.Has(a) || a == t.slot ==> n(a) == m(a)
    ensures Holds(arch, t, n, v)
  {
    StoredKept(m, n, v.sp - 1, v.regs);
    assert Cells(n, v.sp, t.hi) == Cells(m, v.sp, t.hi);
  }

  /** Threads stay where they are, and the record of a thread that is not current changes in no step. */
  lemma StepGrows(arch: Arch, s: Sys, e: Event, r: Sys)
    requires SysOk(arch, s) && Step(arch, s, e, r)
    ensures |s.ts| <= |r.ts| && (forall j :: 0 <= j < |s.ts| ==> r.ts[j] == s.ts[j])
    ensures |r.w.views| == |r.ts| && forall j :: 0 <= j < |s.ts| && j != s.w.cur ==> r.w.views[j] == s.w.views[j]
    ensures r.w.cur == if e.SwitchOut? then e.j else s.w.cur
  {
    hide Holds, Created, InitialView, Switch, AtCall, ViewOf, Computes;
  }

  lemma {:induction false} TraceKeeps(arch: Arch, ss: seq<Sys>, es: seq<Event>, k: nat)
    requires Trace(arch, ss, es) && SysOk(arch, ss[0]) && k < |ss|
    ensures SysOk(arch, ss[k])
    decreases k
  {
    hide Step, SysOk;
    if k > 0 {
      TraceKeeps(arch, ss, es, k - 1);
      assert StepAt(arch, ss, es, k - 1);
      StepKeeps(arch, ss[k - 1], es[k - 1], ss[k]);
    }
  }

  /** While a thread is switched out, its place and its recorded view do not change. */
  lemma {:induction false} ViewStays(arch: Arch, ss: seq<Sys>, es: seq<Event>, j: nat, i: nat, k: nat)
    requires Trace(arch, ss, es) && SysOk(arch, ss[0]) && i <= k < |ss| && j < |ss[i].ts|
    requires forall m :: i <= m < k ==> ss[m].w.cur != j
    ensures |ss[i].w.views| == |ss[i].ts| && |ss[k].w.views| == |ss[k].ts| >= |ss[i].ts|
    ensures ss[k].ts[j] == ss[i].ts[j] && ss[k].w.views[j] == ss[i].w.views[j]
    decreases k
  {
    hide Step;
    TraceKeeps(arch, ss, es, k);
    if i < k {
      ViewStays(arch, ss, es, j, i, k - 1);
      TraceKeeps(arch, ss, es, k - 1);
      assert StepAt(arch, ss, es, k - 1);
      StepGrows(arch, ss[k - 1], es[k - 1], ss[k]);
    }
  }

  /**
   In every run in which threads write only their own stacks and create others, a thread that left
   at step i and is next switched to at step k comes back with the callee-saved registers, return
   address, stack pointer and stack contents it left with.
   */
  lemma ComesBackUnchanged(arch: Arch, ss: seq<Sys>, es: seq<Event>, i: nat, k: nat)
    requires Trace(arch, ss, es) && SysOk(arch, ss[0])
    requires i < k < |es| && es[i].SwitchOut? && es[k].SwitchOut? && es[k].j == ss[i].w.cur
    requires forall m :: i < m <= k ==> ss[m].w.cur != ss[i].w.cur
    ensures var j, d := ss[i].w.cur, ss[k + 1].w.cpu;
            && j < |ss[i].ts| && es[i].j < |ss[i].ts| && j < |ss[k].ts| && ss[k].ts[j] == ss[i].ts[j]
            && ViewOf(arch, ss[i].ts[j], d, d.pc)
               == ViewOf(arch, ss[i].ts[j], AtCall(arch, ss[i].ts, ss[i].w, es[i].j), es[i].ra)
  {
    hide Holds, ViewOf, Switch, AtCall, HasRoom, Computes, Spawn;
    var j := ss[i].w.cur;
    TraceKeeps(arch, ss, es, i);
    TraceKeeps(arch, ss, es, k);
    assert StepAt(arch, ss, es, i);
    ViewStays(arch, ss, es, j, i + 1, k);
    assert StepAt(arch, ss, es, k);
    Resumes(arch, ss[k].ts, ss[k].w, j, es[k].ra);
  }

  /**
   In every run a thread created at step i and first switched to at step k arrives at the
   trampoline, which calls exactly the function it was created with, with its argument.
   */
  lemma CreatedThenRun(arch: Arch, ss: seq<Sys>, es: seq<Event>, i: nat, k: nat, back: int)
    requires Trace(arch, ss, es) && SysOk(arch, ss[0])
    requires i < k < |es| && es[i].Create? && es[k].SwitchOut? && es[k].j == |ss[i].ts|
    requires forall m :: i < m < k ==> es[m].SwitchOut? ==> es[m].j != |ss[i].ts|
    ensures var d := ss[k + 1].w.cpu;
            d.pc == es[i].tramp && Enters(arch, Run(Trampoline(arch, back), d), es[i].fn, es[i].arg, back)
  {
    hide Holds, ViewOf, Switch, AtCall, HasRoom, Computes, Run, InitialView, Enters;
    var j := |ss[i].ts|;
    TraceKeeps(arch, ss, es, i);
    TraceKeeps(arch, ss, es, k);
    assert StepAt(arch, ss, es, i);
    NotYetCurrent(arch, ss, es, i, k);
    ViewStays(arch, ss, es, j, i + 1, k);
    assert StepAt(arch, ss, es, k);
    FirstSwitch(arch, ss[k].ts, ss[k].w, j, es[k].ra, es[i].fn, es[i].arg, es[i].tramp, back);
  }

  lemma {:induction false} NotYetCurrent(arch: Arch, ss: seq<Sys>, es: seq<Event>, i: nat, k: nat)
    requires Trace(arch, ss, es) && SysOk(arch, ss[0])
    requires i < k < |ss| && es[i].Create?
    requires forall m :: i < m < k ==> es[m].SwitchOut? ==> es[m].j != |ss[i].ts|
    ensures forall m :: i < m <= k ==> ss[m].w.cur != |ss[i].ts|
    decreases k
  {
    hide Step;
    TraceKeeps(arch, ss, es, k - 1);
    assert StepAt(arch, ss, es, k - 1);
    StepGrows(arch, ss[k - 1], es[k - 1], ss[k]);
    if i + 1 < k { NotYetCurrent(arch, ss, es, i, k - 1); }
  }
}
