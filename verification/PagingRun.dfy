/**
 The page allocator shared by the page tables and other clients: over every mixed run the tables
 stay marked used and apart from every extent a client holds.
 */
module PagingRun {

  import opened Bytes
  import opened Pmm
  import opened PageTable
  import opened Vmm
  import PmmRun

  /** A call of vmm_map or vmm_unmap, or of a client of the page allocator. */
  datatype Call = Paging(op: Op) | Client(req: PmmRun.Op) {
    predicate Ok() { if Paging? then op.Ok() else req.Take? ==> req.n < WORD32 }
  }

  /** The paging calls among some calls. */
  function PagingOps(calls: seq<Call>): seq<Op>
  {
    if calls == [] then []
    else
      var before, last := PagingOps(calls[..|calls| - 1]), calls[|calls| - 1];
      if last.Paging? then before + [last.op] else before
  }

  /** The tables are among the pages base, and clients hold disjoint extents outside base. */
  ghost predicate Shared(base: set<nat>, tabs: Tables, used: set<nat>, held: seq<PmmRun.Extent>)
  {
    tabs.Keys <= base && PmmRun.Inv(base, PmmRun.State(used, held))
  }

  /** What Shared says of the tables. */
  lemma TablesApart(base: set<nat>, tabs: Tables, used: set<nat>, held: seq<PmmRun.Extent>)
    requires Shared(base, tabs, used, held)
    ensures tabs.Keys <= used && PmmRun.Disjoint(held)
    ensures forall i :: 0 <= i < |held| ==> PmmRun.ExtentPages(held[i]) !! tabs.Keys
  {
    hide PmmRun.ExtentPages, PmmRun.HeldPages;
  }

  /** New tables join the base: they were free, so no client holds them. */
  lemma TablesJoin(base: set<nat>, t0: Tables, u0: set<nat>, t1: Tables, u1: set<nat>, held: seq<PmmRun.Extent>)
    requires Shared(base, t0, u0, held) && Took(t0, u0, t1, u1)
    ensures Shared(base + t1.Keys, t1, u1, held)
  {
    hide PmmRun.ExtentPages, PmmRun.HeldPages;
    forall i | 0 <= i < |held| ensures PmmRun.ExtentPages(held[i]) !! base + t1.Keys {
      PmmRun.HeldContains(held, i);
      TablesApart(base, t0, u0, held);
    }
  }

  /** One call; ok is false where vmm_map finds no frame. */
  method Perform(vmm: Vmm, call: Call, held: seq<PmmRun.Extent>, ghost base: set<nat>)
    returns (ok: bool, left: seq<PmmRun.Extent>, ghost grown: set<nat>)
    requires vmm.Valid() && call.Ok() && Shared(base, vmm.tabs, vmm.pmm.Used(), held)
    modifies vmm`tabs, vmm.phys, vmm.pmm`usedBytes, vmm.pmm.bitmap
    ensures vmm.Valid() && base <= grown && Shared(grown, vmm.tabs, vmm.pmm.Used(), left)
    ensures forall n :: 0 <= n < PAGE_NUMBERS ==>
              vmm.Lookup(n) == if ok && call.Paging? then Flat(old(vmm.Lookup(n)), [call.op], n) else old(vmm.Lookup(n))
    ensures !ok ==> call.Paging? && call.op.MapOp? && FreePages(vmm.pmm.Used()) == {}
  {
    hide Pmm.Used, Walk, Tree, PageOf, Or, Missing, FreePages, Took, Shared;
    ok, left, grown := true, held, base;
    match call {
      case Paging(op) =>
        assert [op][..0] == [];
        match op {
          case MapOp(virt, frame, flags) => ok := vmm.Map(virt, frame, flags);
          case UnmapOp(virt) => vmm.Unmap(virt); TookNone(vmm.tabs, vmm.pmm.Used());
        }
        TablesJoin(base, old(vmm.tabs), old(vmm.pmm.Used()), vmm.tabs, vmm.pmm.Used(), held);
        grown := base + vmm.tabs.Keys;
      case Client(req) =>
        left := Serve(vmm, req, held, base);
    }
  }

  /** A client's call leaves the tables as they are and marked used. */
  method Serve(vmm: Vmm, req: PmmRun.Op, held: seq<PmmRun.Extent>, ghost base: set<nat>) returns (left: seq<PmmRun.Extent>)
    requires vmm.Valid() && (req.Take? ==> req.n < WORD32) && Shared(base, vmm.tabs, vmm.pmm.Used(), held)
    modifies vmm.pmm`usedBytes, vmm.pmm.bitmap
    ensures vmm.Valid() && Shared(base, vmm.tabs, vmm.pmm.Used(), left)
  {
    hide Pmm.Used, Tree, PmmRun.Inv;
    left := PmmRun.ServeOne(vmm.pmm, req, held, base);
    TablesApart(base, vmm.tabs, vmm.pmm.Used(), left);
  }

  /**
   Every run of vmm_map, vmm_unmap and clients of the page allocator, up to the first vmm_map that
   finds no frame: the tables form a tree of used pages that no client holds, held extents are
   disjoint, and each page translates as the paging calls alone make one cell of a flat table.
   */
  method PerformAll(vmm: Vmm, calls: seq<Call>) returns (done: nat, held: seq<PmmRun.Extent>, ghost base: set<nat>)
    requires vmm.Valid() && forall k :: 0 <= k < |calls| ==> calls[k].Ok()
    modifies vmm`tabs, vmm.phys, vmm.pmm`usedBytes, vmm.pmm.bitmap
    ensures vmm.Valid() && done <= |calls| && old(vmm.pmm.Used()) <= base
    ensures Shared(base, vmm.tabs, vmm.pmm.Used(), held)
    ensures forall n :: 0 <= n < PAGE_NUMBERS ==> vmm.Lookup(n) == Flat(old(vmm.Lookup(n)), PagingOps(calls[..done]), n)
    ensures done < |calls| ==> FreePages(vmm.pmm.Used()) == {}
  {
    hide Pmm.Used, Walk, Tree, Flat, FreePages, Shared;
    base, held, done := vmm.pmm.Used(), [], 0;
    SharedStart(vmm.tabs, vmm.pmm.Used());
    ghost var m0 := vmm.Mem();
    FlatNone();
    while done < |calls|
      invariant done <= |calls| && vmm.Valid() && old(vmm.pmm.Used()) <= base
      invariant Shared(base, vmm.tabs, vmm.pmm.Used(), held)
      invariant forall n :: 0 <= n < PAGE_NUMBERS ==> vmm.Lookup(n) == Flat(Walk(m0, vmm.root, n), PagingOps(calls[..done]), n)
    {
      var ok: bool;
      OpsSnoc(calls, done);
      ok, held, base := Perform(vmm, calls[done], held, base);
      if !ok { return; }
      done := done + 1;
    }
  }

  lemma SharedStart(tabs: Tables, used: set<nat>)
    requires tabs.Keys <= used
    ensures Shared(used, tabs, used, [])
  {
    PmmRun.InvStart(used);
  }

  lemma FlatNone()
    ensures forall t: Target, n: nat :: Flat(t, [], n) == t
  {
  }

  lemma OpsSnoc(calls: seq<Call>, i: nat)
    requires i < |calls|
    ensures var before, after := PagingOps(calls[..i]), PagingOps(calls[..i + 1]);
            && (calls[i].Client? ==> after == before)
            && (calls[i].Paging? ==> forall t, n :: Flat(t, after, n) == Flat(Flat(t, before, n), [calls[i].op], n))
  {
    assert calls[..i + 1][..i] == calls[..i];
    if calls[i].Paging? {
      var before, op := PagingOps(calls[..i]), calls[i].op;
      assert (before + [op])[..|before|] == before && [op][..0] == [];
    }
  }
}
