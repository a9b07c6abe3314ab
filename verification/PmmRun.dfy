/**
 Clients of the physical page allocator that give back only what they hold:
 over every run their extents never overlap and nothing is lost.
 */
module PmmRun {

  import opened Bytes
  import opened Pmm

  datatype Extent = Extent(start: nat, n: nat)

  /** The pages in use, and the extents clients hold. */
  datatype State = State(used: set<nat>, held: seq<Extent>)

  datatype Op = Take(n: nat) | Give(k: nat)

  ghost function ExtentPages(e: Extent): set<nat>
  {
    Pages(e.start, e.start + e.n)
  }

  ghost function HeldPages(held: seq<Extent>): set<nat>
  {
    if held == [] then {} else HeldPages(held[..|held| - 1]) + ExtentPages(held[|held| - 1])
  }

  function Without(held: seq<Extent>, k: nat): seq<Extent>
    requires k < |held|
  {
    held[..k] + held[k + 1..]
  }

  /** One call of pmm_alloc (n = 1) or pmm_alloc_n, or of pmm_free_n on a held extent. */
  ghost predicate Step(s: State, op: Op, t: State)
  {
    match op
    case Take(n) =>
      || (t == s && (n == 0 || forall p: nat :: !ClearRun(s.used, p, n)))
      || (n > 0 && exists p: nat :: LowestClearRun(s.used, p, n)
                               && t == State(s.used + Pages(p, p + n), s.held + [Extent(p, n)]))
    case Give(k) =>
      && k < |s.held|
      && t == State(s.used - ExtentPages(s.held[k]), Without(s.held, k))
  }

  ghost predicate Disjoint(held: seq<Extent>)
  {
    forall i, j :: 0 <= i < j < |held| ==> ExtentPages(held[i]) !! ExtentPages(held[j])
  }

  /** base is what was in use before the first client call. */
  ghost predicate Inv(base: set<nat>, s: State)
  {
    && Disjoint(s.held)
    && (forall i :: 0 <= i < |s.held| ==> ExtentPages(s.held[i]) !! base)
    && (forall i :: 0 <= i < |s.held| ==>
          1 <= s.held[i].start && s.held[i].start + s.held[i].n <= MAX_PAGES)
    && s.used == base + HeldPages(s.held)
  }

  lemma {:induction false} HeldConcat(a: seq<Extent>, b: seq<Extent>)
    ensures HeldPages(a + b) == HeldPages(a) + HeldPages(b)
    decreases |b|
  {
    if b == [] {
      assert a + b == a;
    } else {
      var c := b[..|b| - 1];
      HeldConcat(a, c);
      assert (a + b)[..|a + b| - 1] == a + c;
    }
  }

  /** A set apart from every extent is apart from all held pages. */
  lemma {:induction false} HeldApart(held: seq<Extent>, x: set<nat>)
    requires forall i :: 0 <= i < |held| ==> ExtentPages(held[i]) !! x
    ensures HeldPages(held) !! x
  {
    hide ExtentPages;
    if held != [] { HeldApart(held[..|held| - 1], x); }
  }

  lemma {:induction false} HeldContains(held: seq<Extent>, i: nat)
    requires i < |held|
    ensures ExtentPages(held[i]) <= HeldPages(held)
  {
    hide ExtentPages;
    if i < |held| - 1 { HeldContains(held[..|held| - 1], i); }
  }

  /** The held pages without extent k are the held pages minus its pages. */
  lemma HeldWithout(held: seq<Extent>, k: nat)
    requires Disjoint(held) && k < |held|
    ensures HeldPages(Without(held, k)) == HeldPages(held) - ExtentPages(held[k])
  {
    hide ExtentPages;
    var a, e, b := held[..k], [held[k]], held[k + 1..];
    assert held == a + e + b;
    HeldConcat(a + e, b);
    HeldConcat(a, e);
    HeldConcat(a, b);
    assert e[..0] == [];
    assert HeldPages(e) == ExtentPages(held[k]);
    HeldApart(a, ExtentPages(held[k]));
    HeldApart(b, ExtentPages(held[k]));
  }

  lemma TakeKeeps(base: set<nat>, s: State, p: nat, n: nat)
    requires Inv(base, s) && LowestClearRun(s.used, p, n)
    ensures Inv(base, State(s.used + Pages(p, p + n), s.held + [Extent(p, n)]))
  {
    hide ExtentPages, Pages;
    var t := State(s.used + Pages(p, p + n), s.held + [Extent(p, n)]);
    assert t.held[..|t.held| - 1] == s.held;
    TakeApart(s.used, p, n);
    forall i | 0 <= i < |s.held| ensures ExtentPages(s.held[i]) !! Pages(p, p + n) {
      HeldContains(s.held, i);
    }
  }

  lemma GiveKeeps(base: set<nat>, s: State, k: nat)
    requires Inv(base, s) && k < |s.held|
    ensures Inv(base, State(s.used - ExtentPages(s.held[k]), Without(s.held, k)))
  {
    hide ExtentPages, HeldPages;
    HeldWithout(s.held, k);
    var w := Without(s.held, k);
    forall i, j | 0 <= i < j < |w| ensures ExtentPages(w[i]) !! ExtentPages(w[j]) {
      var a, b := if i < k then i else i + 1, if j < k then j else j + 1;
      assert w[i] == s.held[a] && w[j] == s.held[b];
    }
    forall i | 0 <= i < |w|
      ensures ExtentPages(w[i]) !! base && 1 <= w[i].start && w[i].start + w[i].n <= MAX_PAGES
    {
      assert w[i] == s.held[if i < k then i else i + 1];
    }
  }

  lemma StepKeeps(base: set<nat>, s: State, op: Op, t: State)
    requires Inv(base, s) && Step(s, op, t)
    ensures Inv(base, t)
  {
    match op
    case Take(n) =>
      if t != s {
        var p: nat :| LowestClearRun(s.used, p, n) && t == State(s.used + Pages(p, p + n), s.held + [Extent(p, n)]);
        TakeKeeps(base, s, p, n);
      }
    case Give(k) => GiveKeeps(base, s, k);
  }

  lemma TakeApart(used: set<nat>, p: nat, n: nat)
    requires ClearRun(used, p, n)
    ensures ExtentPages(Extent(p, n)) == Pages(p, p + n) && Pages(p, p + n) !! used
  {
  }

  ghost predicate Trace(ss: seq<State>, ops: seq<Op>)
  {
    |ss| == |ops| + 1 && forall i: nat :: i < |ops| ==> StepAt(ss, ops, i)
  }

  ghost predicate StepAt(ss: seq<State>, ops: seq<Op>, i: nat)
    requires i < |ops| && |ss| == |ops| + 1
  {
    Step(ss[i], ops[i], ss[i + 1])
  }

  /**
   Over every run, extents held at the same time are disjoint, lie above page 0, and together
   with what was in use at the start account for every page in use.
   */
  lemma {:induction false} RunKeeps(ss: seq<State>, ops: seq<Op>, i: nat)
    requires Trace(ss, ops) && ss[0].held == [] && i < |ss|
    ensures Inv(ss[0].used, ss[i])
    decreases i
  {
    if i > 0 {
      RunKeeps(ss, ops, i - 1);
      assert StepAt(ss, ops, i - 1);
      StepKeeps(ss[0].used, ss[i - 1], ops[i - 1], ss[i]);
    }
  }

  /** When all clients have given everything back, the bitmap is what it was. */
  lemma AllGivenBack(ss: seq<State>, ops: seq<Op>)
    requires Trace(ss, ops) && ss[0].held == [] && ss[|ops|].held == []
    ensures ss[|ops|].used == ss[0].used
  {
    RunKeeps(ss, ops, |ops|);
  }

  /**
   Clients of the real bitmap: whatever they ask for, and in whatever order they give extents
   back, every call is a step of the run above, so the extents they hold stay disjoint and the
   bits set are exactly those set at the start and those of the held pages.
   */
  method Serve(pmm: Pmm, ops: seq<Op>) returns (held: seq<Extent>)
    requires pmm.Valid() && forall i :: 0 <= i < |ops| && ops[i].Take? ==> ops[i].n < WORD32
    modifies pmm`usedBytes, pmm.bitmap
    ensures pmm.Valid()
    ensures Inv(old(pmm.Used()), State(pmm.Used(), held))
    ensures held == [] ==> pmm.Used() == old(pmm.Used())
  {
    hide Pmm.Used, Pages, ClearRun, LowestClearRun, ExtentPages, Disjoint, Inv;
    ghost var base := pmm.Used();
    held := [];
    InvStart(base);
    for i := 0 to |ops|
      invariant pmm.Valid() && Inv(base, State(pmm.Used(), held))
    {
      held := ServeOne(pmm, ops[i], held, base);
    }
    InvEnd(base, State(pmm.Used(), held));
  }

  method ServeOne(pmm: Pmm, op: Op, held: seq<Extent>, ghost base: set<nat>) returns (left: seq<Extent>)
    requires pmm.Valid() && Inv(base, State(pmm.Used(), held)) && (op.Take? ==> op.n < WORD32)
    modifies pmm`usedBytes, pmm.bitmap
    ensures pmm.Valid() && Inv(base, State(pmm.Used(), left))
    ensures (op.Give? && op.k >= |held| && left == held && pmm.Used() == old(pmm.Used()))
            || Step(State(old(pmm.Used()), held), op, State(pmm.Used(), left))
  {
    hide Pmm.Used, Inv, Step;
    ghost var s := State(pmm.Used(), held);
    left := held;
    match op {
      case Take(n) => left := TakeExtent(pmm, n, held);
      case Give(k) =>
        if k >= |held| { return; }
        HeldInRange(base, s, k);
        left := GiveExtent(pmm, k, held);
    }
    StepKeeps(base, s, op, State(pmm.Used(), left));
  }

  method TakeExtent(pmm: Pmm, n: nat, held: seq<Extent>) returns (left: seq<Extent>)
    requires pmm.Valid() && n < WORD32
    modifies pmm`usedBytes, pmm.bitmap
    ensures pmm.Valid() && Step(State(old(pmm.Used()), held), Take(n), State(pmm.Used(), left))
  {
    hide Pmm.Used, Pages, ClearRun, LowestClearRun;
    var addr := pmm.AllocN(n);
    left := if addr == 0 then held else held + [Extent(addr / PAGE_SIZE, n)];
  }

  method GiveExtent(pmm: Pmm, k: nat, held: seq<Extent>) returns (left: seq<Extent>)
    requires pmm.Valid() && k < |held| && held[k].start + held[k].n <= MAX_PAGES
    modifies pmm`usedBytes, pmm.bitmap
    ensures pmm.Valid() && Step(State(old(pmm.Used()), held), Give(k), State(pmm.Used(), left))
  {
    hide Pmm.Used, Pages;
    FreedPagesExact(pmm.arch, held[k].start, held[k].n);
    pmm.FreeN(held[k].start * PAGE_SIZE, held[k].n);
    left := Without(held, k);
  }

  lemma InvStart(base: set<nat>)
    ensures Inv(base, State(base, []))
  {
  }

  lemma InvEnd(base: set<nat>, s: State)
    requires Inv(base, s)
    ensures s.held == [] ==> s.used == base
  {
  }

  lemma HeldInRange(base: set<nat>, s: State, k: nat)
    requires Inv(base, s) && k < |s.held|
    ensures s.held[k].start + s.held[k].n <= MAX_PAGES
  {
  }
}
