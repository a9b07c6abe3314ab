/**
 The x86_64 virtual memory manager: page tables written in place in physical frames
 taken from the page allocator, behaving as one flat map from page numbers to frames.
 */
module Vmm {

  import opened Bytes
  import opened Arithmetic
  import opened Pmm
  import opened PageTable

  /** The page number the hardware walk and vmm_phys use for a 64-bit address. */
  function PageOf(virt: nat): (n: nat)
    ensures n < PAGE_NUMBERS
  {
    virt / PAGE_SIZE % PAGE_NUMBERS
  }

  /** What vmm_phys returns for an address whose page leads to t: 0 for an unmapped page. */
  function PhysOf(t: Target, virt: nat): nat
  {
    if t.Unmapped? then 0 else t.frame * PAGE_SIZE + virt % PAGE_SIZE
  }

  /** The indices computed from an address are those of its page number. */
  lemma AddressIndices(virt: nat)
    ensures virt / 0x80_0000_0000 % ENTRIES == Index4(PageOf(virt))
    ensures virt / 0x4000_0000 % ENTRIES == Index3(PageOf(virt))
    ensures virt / 0x20_0000 % ENTRIES == Index2(PageOf(virt))
    ensures virt / PAGE_SIZE % ENTRIES == Index1(PageOf(virt))
  {
    var q := virt / PAGE_SIZE;
    Shift9(virt);
    Shift18(virt);
    Shift27(virt);
    Low4(q);
    Low3(q);
    Low2(q);
    Low1(q);
  }

  lemma Shift9(v: nat) ensures v / 0x20_0000 == v / 0x1000 / 0x200 {}
  lemma Shift18(v: nat) ensures v / 0x4000_0000 == v / 0x1000 / 0x4_0000 {}
  lemma Shift27(v: nat) ensures v / 0x80_0000_0000 == v / 0x1000 / 0x800_0000 {}

  lemma Drop9(x: nat, m: nat) ensures (x + m * 0x200) % 0x200 == x % 0x200 {}

  lemma Shifted4(q: nat) ensures q / 0x800_0000 == q % PAGE_NUMBERS / 0x800_0000 + q / PAGE_NUMBERS * 0x200 {}
  lemma Shifted3(q: nat) ensures q / 0x4_0000 == q % PAGE_NUMBERS / 0x4_0000 + q / PAGE_NUMBERS * 0x4_0000 {}
  lemma Shifted2(q: nat) ensures q / 0x200 == q % PAGE_NUMBERS / 0x200 + q / PAGE_NUMBERS * 0x800_0000 {}

  lemma Low4(q: nat) ensures Index4(q % PAGE_NUMBERS) == Index4(q)
  {
    Shifted4(q);
    Drop9(q % PAGE_NUMBERS / 0x800_0000, q / PAGE_NUMBERS);
  }
  lemma Low3(q: nat) ensures Index3(q % PAGE_NUMBERS) == Index3(q)
  {
    Shifted3(q);
    Drop9(q % PAGE_NUMBERS / 0x4_0000, q / PAGE_NUMBERS * 0x200);
  }
  lemma Low2(q: nat) ensures Index2(q % PAGE_NUMBERS) == Index2(q)
  {
    Shifted2(q);
    Drop9(q % PAGE_NUMBERS / 0x200, q / PAGE_NUMBERS * 0x4_0000);
  }
  lemma Low1(q: nat) ensures Index1(q % PAGE_NUMBERS) == Index1(q)
  {
    Drop9(q % PAGE_NUMBERS, q / PAGE_NUMBERS * 0x800_0000);
  }

  /** Pages pmm_alloc can still hand out. */
  ghost function FreePages(used: set<nat>): set<nat>
  {
    Pages(1, MAX_PAGES) - used
  }

  lemma TakePage(used: set<nat>, p: nat)
    requires p in FreePages(used)
    ensures |FreePages(used + {p})| == |FreePages(used)| - 1
  {
    assert FreePages(used + {p}) == FreePages(used) - {p};
  }

  /** From tables t0 and used pages u0 to t1 and u1, exactly the new tables were taken, all of them free before. */
  ghost predicate Took(t0: Tables, u0: set<nat>, t1: Tables, u1: set<nat>)
  {
    t0.Keys <= t1.Keys && u1 == u0 + t1.Keys && (t1.Keys - t0.Keys) !! u0
  }

  lemma TookNone(t: Tables, u: set<nat>)
    requires t.Keys <= u
    ensures Took(t, u, t, u)
  {
  }

  lemma TookOne(t: Tables, u: set<nat>, p: nat, s: Slot)
    requires t.Keys <= u && p !in u
    ensures Took(t, u, t[p := s], u + {p})
  {
  }

  lemma TookBoth(t0: Tables, u0: set<nat>, t1: Tables, u1: set<nat>, t2: Tables, u2: set<nat>)
    requires Took(t0, u0, t1, u1) && Took(t1, u1, t2, u2)
    ensures Took(t0, u0, t2, u2)
  {
  }

  /** The pages taken are the new tables, as many as the free pages have become fewer. */
  lemma TookFrom(t0: Tables, u0: set<nat>, t1: Tables, u1: set<nat>)
    requires Took(t0, u0, t1, u1) && t0.Keys <= u0 && u1 <= AllPages() && 0 !in t1
    ensures t1.Keys == t0.Keys + (u1 - u0)
    ensures |u1 - u0| == |FreePages(u0)| - |FreePages(u1)|
  {
    hide FreePages, AllPages;
    var taken := u1 - u0;
    assert t1.Keys == t0.Keys + taken;
    assert 0 !in taken && taken <= AllPages();
    assert u1 == u0 + taken;
    FewerFree(u0, taken);
  }

  lemma FewerFree(u: set<nat>, taken: set<nat>)
    requires taken <= AllPages() && 0 !in taken && taken !! u
    ensures |taken| == |FreePages(u)| - |FreePages(u + taken)|
  {
    assert taken <= FreePages(u);
    assert FreePages(u + taken) == FreePages(u) - taken;
    SubsetSize(taken, FreePages(u));
  }

  /** From used pages u0 to u1, pages were taken from the lowest free one up. */
  ghost predicate LowestFirst(u0: set<nat>, u1: set<nat>)
  {
    u0 <= u1 && forall p: nat, q: nat :: p in u1 && p !in u0 && 1 <= q < p ==> q in u1
  }

  lemma LowestNone(u: set<nat>)
    ensures LowestFirst(u, u)
  {
  }

  lemma LowestOne(u: set<nat>, p: nat)
    requires LowestClearRun(u, p, 1)
    ensures LowestFirst(u, u + {p})
  {
    forall q: nat | 1 <= q < p ensures q in u {
      assert !ClearRun(u, q, 1);
      assert q + 1 <= MAX_PAGES;
    }
  }

  lemma LowestBoth(u0: set<nat>, u1: set<nat>, u2: set<nat>)
    requires LowestFirst(u0, u1) && LowestFirst(u1, u2)
    ensures LowestFirst(u0, u2)
  {
  }

  class Vmm {
    const pmm: Pmm
    const phys: array2<nat>
    const root: nat
    ghost var tabs: Tables

    ghost predicate Sized()
    {
      phys.Length0 == MAX_PAGES && phys.Length1 == ENTRIES
    }

    /** The frames as a value. */
    ghost function Mem(): (m: Memory)
      requires Sized()
      reads phys
      ensures Shaped(m)
      ensures forall f, i :: 0 <= f < MAX_PAGES && 0 <= i < ENTRIES ==> m[f][i] == phys[f, i]
    {
      seq(MAX_PAGES, f requires 0 <= f < MAX_PAGES && Sized() reads phys =>
        seq(ENTRIES, i requires 0 <= i < ENTRIES && 0 <= f < MAX_PAGES && Sized() reads phys => phys[f, i]))
    }

    /** Translation of a page number by the current tables. */
    ghost function Lookup(n: nat): Target
      requires Sized()
      reads phys
    {
      Walk(Mem(), root, n)
    }

    ghost predicate Valid()
      reads this, phys, pmm, pmm.bitmap
    {
      && Sized() && pmm.Valid()
      && Tree(Mem(), root, tabs)
      && forall f :: f in tabs ==> f in pmm.Used()
    }

    method Store(f: nat, i: nat, e: nat)
      requires Sized() && f < MAX_PAGES && i < ENTRIES
      modifies phys
      ensures Mem() == Put(old(Mem()), f, i, e)
    {
      hide Shaped;
      phys[f, i] := e;
      SameMemory(Mem(), Put(old(Mem()), f, i, e));
    }

    /** memset of one frame to zero. */
    method Zero(f: nat)
      requires Sized() && f < MAX_PAGES
      modifies phys
      ensures Mem() == ZeroFrame(old(Mem()), f)
    {
      for i := 0 to ENTRIES
        invariant forall g, j :: 0 <= g < MAX_PAGES && 0 <= j < ENTRIES ==>
                    phys[g, j] == if g == f && j < i then 0 else old(phys[g, j])
      {
        phys[f, i] := 0;
      }
      SameMemory(Mem(), ZeroFrame(old(Mem()), f));
    }

    /** pmm_alloc, as a frame number. */
    method TakeFrame() returns (p: nat)
      requires pmm.Valid()
      modifies pmm`usedBytes, pmm.bitmap
      ensures pmm.Valid()
      ensures p == 0 ==> FreePages(old(pmm.Used())) == {} && pmm.Used() == old(pmm.Used())
      ensures p != 0 ==> p in FreePages(old(pmm.Used())) && pmm.Used() == old(pmm.Used()) + {p}
                         && 1 <= p < MAX_PAGES && p !in old(pmm.Used())
                         && |FreePages(pmm.Used())| == |FreePages(old(pmm.Used()))| - 1
      ensures LowestFirst(old(pmm.Used()), pmm.Used())
    {
      hide pmm.Used, LowestFirst;
      LowestNone(pmm.Used());
      var addr := pmm.Alloc();
      p := addr / PAGE_SIZE;
      if addr == 0 {
        AllUsed(pmm.Used());
      } else {
        TakePage(old(pmm.Used()), p);
        LowestOne(old(pmm.Used()), p);
      }
    }

    /** pmm_alloc, memset and the link into an empty slot; 0 when no page is free. */
    method NewTable(f: nat, i: nat) returns (p: nat)
      requires Valid() && f in tabs && tabs[f].level >= 2 && i < ENTRIES
      requires !Present(At(Mem(), f, i))
      modifies this`tabs, phys, pmm`usedBytes, pmm.bitmap
      ensures Valid()
      ensures p == 0 ==> FreePages(old(pmm.Used())) == {} && Mem() == old(Mem()) && tabs == old(tabs) && pmm.Used() == old(pmm.Used())
      ensures p != 0 ==> p !in old(tabs) && 1 <= p < MAX_PAGES && Mem() == Grow(old(Mem()), f, i, p)
                         && tabs == old(tabs)[p := Slot(old(tabs)[f].level - 1, f, i)]
                         && |FreePages(pmm.Used())| == |FreePages(old(pmm.Used()))| - 1
      ensures Took(old(tabs), old(pmm.Used()), tabs, pmm.Used())
      ensures LowestFirst(old(pmm.Used()), pmm.Used())
    {
      hide pmm.Used, Tree, Put, ZeroFrame, Present, FreePages, At, Took, LowestFirst;
      TookNone(tabs, pmm.Used());
      p := TakeFrame();
      if p == 0 { return; }
      TookOne(tabs, old(pmm.Used()), p, Slot(tabs[f].level - 1, f, i));
      InRange();
      GrowTree(Mem(), root, tabs, f, i, p);
      Zero(p);
      Store(f, i, TableEntry(p));
      tabs := tabs[p := Slot(tabs[f].level - 1, f, i)];
    }

    lemma InRange()
      requires Sized() && Tree(Mem(), root, tabs)
      ensures Shaped(Mem()) && forall f :: f in tabs ==> 1 <= f < MAX_PAGES
    {
    }

    /** get_or_create: the table that slot i of table f leads to, made if the slot is empty. */
    method GetOrCreate(f: nat, i: nat) returns (t: nat)
      requires Valid() && f in tabs && tabs[f].level >= 2 && i < ENTRIES
      requires tabs[f].level == 2 ==> !Huge(At(Mem(), f, i))
      modifies this`tabs, phys, pmm`usedBytes, pmm.bitmap
      ensures Valid()
      ensures t == 0 <==> FreePages(old(pmm.Used())) == {} && !Present(At(old(Mem()), f, i))
      ensures t != 0 ==> t in tabs && tabs[t] == Slot(old(tabs)[f].level - 1, f, i)
      ensures forall g :: g in old(tabs) ==> g in tabs && tabs[g] == old(tabs)[g]
      ensures forall n :: Lookup(n) == old(Lookup(n))
      ensures t == 0 || Present(At(old(Mem()), f, i)) ==> Mem() == old(Mem()) && pmm.Used() == old(pmm.Used())
      ensures Present(At(old(Mem()), f, i)) ==> t == FrameOf(At(old(Mem()), f, i))
      ensures t != 0 && !Present(At(old(Mem()), f, i)) ==>
                |FreePages(pmm.Used())| == |FreePages(old(pmm.Used()))| - 1
      ensures t != 0 && !Present(At(old(Mem()), f, i)) ==> forall j :: 0 <= j < ENTRIES ==> At(Mem(), t, j) == 0
      ensures Took(old(tabs), old(pmm.Used()), tabs, pmm.Used())
    {
      hide pmm.Used, FrameOf, Put, ZeroFrame, Walk, FreePages, Present, Huge, UpOk, Took;
      TookNone(tabs, pmm.Used());
      ghost var m0, ts := Mem(), tabs;
      assert DownOk(m0, tabs, f, i);
      if !Present(phys[f, i]) {
        t := NewTable(f, i);
        if t == 0 { return; }
        forall n: nat ensures Lookup(n) == old(Lookup(n)) { GrowWalk(m0, root, ts, f, i, t, n); }
        assert DownOk(Mem(), tabs, f, i);
        ZeroNotPresent();
        return;
      }
      t := FrameOf(phys[f, i]);
      assert t in tabs;
    }

    /**
     vmm_map: an address under a 2 MiB entry is left alone; otherwise its page, and no other,
     leads to the new frame. It takes exactly the frames its path lacks from the allocator; ok is
     false where these run out, and the kernel would go on with a null table.
     */
    method Map(virt: nat, frame: nat, flags: nat) returns (ok: bool)
      requires Valid() && virt < WORD64 && frame < WORD64 && flags < WORD64
      modifies this`tabs, phys, pmm`usedBytes, pmm.bitmap
      ensures Valid()
      ensures ok <==> |FreePages(old(pmm.Used()))| >= Missing(old(Mem()), root, PageOf(virt))
      ensures ok ==> |FreePages(pmm.Used())| == |FreePages(old(pmm.Used()))| - Missing(old(Mem()), root, PageOf(virt))
      ensures !ok ==> FreePages(pmm.Used()) == {}
      ensures Took(old(tabs), old(pmm.Used()), tabs, pmm.Used())
      ensures !ok || old(Lookup(PageOf(virt))).Large? ==> forall m :: Lookup(m) == old(Lookup(m))
      ensures ok && !old(Lookup(PageOf(virt))).Large? ==>
                forall m :: 0 <= m < PAGE_NUMBERS ==>
                  Lookup(m) == if m == PageOf(virt) then MapTarget(frame, flags) else old(Lookup(m))
    {
      hide pmm.Used, FrameOf, Put, Walk, Index1, Index2, Index3, Index4, MapEntry, MapTarget, Leaf, Huge, Present, PageOf, Tree, UpOk, DownOk, Missing, FreePages, Or, Took;
      ghost var n := PageOf(virt);
      AddressIndices(virt);
      var pml4i, pdpti := virt / 0x80_0000_0000 % ENTRIES, virt / 0x4000_0000 % ENTRIES;
      var pdi, pti := virt / 0x20_0000 % ENTRIES, virt / PAGE_SIZE % ENTRIES;
      var pd := DirectoryOf(pml4i, pdpti, n);
      if pd == 0 { return false; }
      InRange();
      if Huge(phys[pd, pdi]) { return true; }
      ghost var t1, u1 := tabs, pmm.Used();
      var pt := GetOrCreate(pd, pdi);
      TookBoth(old(tabs), old(pmm.Used()), t1, u1, tabs, pmm.Used());
      if pt == 0 { return false; }
      MapEntryLeads(frame, flags);
      SetLeaf(pt, pti, MapEntry(frame, flags), n);
      return true;
    }

    /** The first two get_or_create calls of vmm_map. */
    method DirectoryOf(pml4i: nat, pdpti: nat, ghost n: nat) returns (pd: nat)
      requires Valid() && pml4i == Index4(n) && pdpti == Index3(n)
      modifies this`tabs, phys, pmm`usedBytes, pmm.bitmap
      ensures Valid()
      ensures forall m :: Lookup(m) == old(Lookup(m))
      ensures pd != 0 ==> pd in tabs && PdOnPath(root, tabs, pd, n) && Huge(At(Mem(), pd, Index2(n))) == Lookup(n).Large?
      ensures pd == 0 ==> FreePages(pmm.Used()) == {}
      ensures Took(old(tabs), old(pmm.Used()), tabs, pmm.Used())
      ensures Lookup(n).Large? ==> Missing(old(Mem()), root, n) == 0
      ensures var need := Missing(old(Mem()), root, n);
              && (pd == 0 <==> |FreePages(old(pmm.Used()))| + 1 < need)
              && (pd != 0 ==> |FreePages(pmm.Used())| == |FreePages(old(pmm.Used()))| - (if need > 1 then need - 1 else 0)
                              && (Present(At(Mem(), pd, Index2(n))) <==> need == 0))
    {
      hide pmm.Used, FrameOf, Put, Walk, Index1, Index2, Index3, Index4, Huge, Present, Tree, UpOk, DownOk, FreePages, Took;
      RootLevel();
      ZeroNotPresent();
      if Lookup(n).Large? { LargeLacksNothing(Mem(), root, n); }
      var pdpt := GetOrCreate(root, pml4i);
      if pdpt == 0 { return 0; }
      ghost var t1, u1 := tabs, pmm.Used();
      pd := GetOrCreate(pdpt, pdpti);
      TookBoth(old(tabs), old(pmm.Used()), t1, u1, tabs, pmm.Used());
      if pd == 0 { return 0; }
      LargeIff(pdpt, pd, n);
    }

    /** Page n goes through a 2 MiB entry exactly when its directory entry has the huge bit. */
    lemma LargeIff(pdpt: nat, pd: nat, n: nat)
      requires Valid() && pdpt in tabs && pd in tabs
      requires tabs[pdpt] == Slot(3, root, Index4(n)) && tabs[pd] == Slot(2, pdpt, Index3(n))
      ensures Huge(At(Mem(), pd, Index2(n))) == Lookup(n).Large?
    {
      hide pmm.Used, FrameOf, Index1, Index2, Index3, Index4, Present;
      Linked(pdpt);
      Linked(pd);
      assert DownOk(Mem(), tabs, pd, Index2(n));
      ZeroNotPresent();
    }

    lemma RootLevel()
      requires Valid()
      ensures root in tabs && tabs[root].level == 4
    {
      Linked(root);
    }

    /** The last store of vmm_map and vmm_unmap, on the table that page n leads to. */
    method SetLeaf(pt: nat, pti: nat, e: nat, ghost n: nat)
      requires Valid() && n < PAGE_NUMBERS && pti == Index1(n)
      requires pt in tabs && tabs[pt].level == 1 && OnPath(root, tabs, pt, n)
      modifies phys
      ensures Valid()
      ensures forall m :: 0 <= m < PAGE_NUMBERS ==>
                Lookup(m) == if m == n then Leaf(e) else old(Lookup(m))
    {
      hide pmm.Used, FrameOf, Put, Walk, Index1, Index2, Index3, Index4, Huge, Present;
      ghost var m0 := Mem();
      InRange();
      Store(pt, pti, e);
      PutSmallTree(m0, root, tabs, pt, pti, e);
      forall m | 0 <= m < PAGE_NUMBERS
        ensures Lookup(m) == if m == n then Leaf(e) else Walk(m0, root, m)
      {
        PutSmallWalk(m0, root, tabs, pt, pti, e, m);
        if OnPath(root, tabs, pt, m) && Index1(m) == pti { SameIndices(m, n); }
      }
    }

    lemma Linked(f: nat)
      requires Valid() && f in tabs
      ensures 1 <= f < MAX_PAGES && UpOk(Mem(), root, tabs, f) && UpOk(Mem(), root, tabs, root)
    {
    }

    /** The table below a present slot, which is a table of the next level. */
    lemma Below(f: nat, i: nat)
      requires Valid() && f in tabs && i < ENTRIES && Links(tabs[f].level, At(Mem(), f, i))
      ensures var c := FrameOf(At(Mem(), f, i));
              c in tabs && c < MAX_PAGES && tabs[c] == Slot(tabs[f].level - 1, f, i)
    {
      assert DownOk(Mem(), tabs, f, i);
    }

    /** vmm_unmap: outside 2 MiB entries the page of virt, and no other, becomes unmapped. */
    method Unmap(virt: nat)
      requires Valid() && virt < WORD64
      modifies phys
      ensures Valid()
      ensures old(Lookup(PageOf(virt))).Large? ==> forall m :: Lookup(m) == old(Lookup(m))
      ensures !old(Lookup(PageOf(virt))).Large? ==>
                forall m :: 0 <= m < PAGE_NUMBERS ==> Lookup(m) == if m == PageOf(virt) then Unmapped else old(Lookup(m))
    {
      hide pmm.Used, FrameOf, Put, Index1, Index2, Index3, Index4, Huge, Present, PageOf, Tree;
      ghost var n := PageOf(virt);
      AddressIndices(virt);
      var pml4i, pdpti := virt / 0x80_0000_0000 % ENTRIES, virt / 0x4000_0000 % ENTRIES;
      var pdi, pti := virt / 0x20_0000 % ENTRIES, virt / PAGE_SIZE % ENTRIES;
      RootLevel();
      InRange();
      if !Present(phys[root, pml4i]) { return; }
      Below(root, pml4i);
      var pdpt := FrameOf(phys[root, pml4i]);
      if !Present(phys[pdpt, pdpti]) { return; }
      Below(pdpt, pdpti);
      var pd := FrameOf(phys[pdpt, pdpti]);
      if !Present(phys[pd, pdi]) || Huge(phys[pd, pdi]) { return; }
      Below(pd, pdi);
      var pt := FrameOf(phys[pd, pdi]);
      ZeroNotPresent();
      SetLeaf(pt, pti, 0, n);
    }

    /** vmm_phys: the walk of the page of virt, with the offset added. */
    method Phys(virt: nat) returns (r: nat)
      requires Valid() && virt < WORD64
      ensures r == PhysOf(Lookup(PageOf(virt)), virt)
    {
      hide pmm.Used, FrameOf, Put, Index1, Index2, Index3, Index4, Huge, Present, PageOf, Tree;
      ghost var n := PageOf(virt);
      AddressIndices(virt);
      var pml4i, pdpti := virt / 0x80_0000_0000 % ENTRIES, virt / 0x4000_0000 % ENTRIES;
      var pdi, pti := virt / 0x20_0000 % ENTRIES, virt / PAGE_SIZE % ENTRIES;
      RootLevel();
      InRange();
      if !Present(phys[root, pml4i]) { return 0; }
      Below(root, pml4i);
      var pdpt := FrameOf(phys[root, pml4i]);
      if !Present(phys[pdpt, pdpti]) { return 0; }
      Below(pdpt, pdpti);
      var pd := FrameOf(phys[pdpt, pdpti]);
      if !Present(phys[pd, pdi]) { return 0; }
      if Huge(phys[pd, pdi]) {
        HugeOffset(phys[pd, pdi], virt);
        return phys[pd, pdi] / 0x20_0000 * 0x20_0000 + virt % 0x20_0000;
      }
      Below(pd, pdi);
      var pt := FrameOf(phys[pd, pdi]);
      if !Present(phys[pt, pti]) { return 0; }
      return FrameOf(phys[pt, pti]) * PAGE_SIZE + virt % PAGE_SIZE;
    }

    /**
     A whole run of vmm_map and vmm_unmap: pages under 2 MiB entries never change, and every
     other page is what the same calls would make of one cell of a flat table. The run stops at
     the first vmm_map for which too few frames are left.
     */
    method Perform(ops: seq<Op>) returns (done: nat)
      requires Valid() && (forall k :: 0 <= k < |ops| ==> ops[k].Ok())
      modifies this`tabs, phys, pmm`usedBytes, pmm.bitmap
      ensures Valid()
      ensures done <= |ops|
      ensures forall n :: 0 <= n < PAGE_NUMBERS ==> Lookup(n) == Flat(old(Lookup(n)), ops[..done], n)
      ensures done < |ops| ==> ops[done].MapOp? && FreePages(pmm.Used()) == {}
    {
      hide pmm.Used, Walk, Tree, PageOf, Or, Missing, FreePages, Took, LowestFirst, MapTarget;
      ghost var m0 := Mem();
      done := 0;
      while done < |ops|
        invariant done <= |ops| && Valid()
        invariant forall n :: 0 <= n < PAGE_NUMBERS ==> Lookup(n) == Flat(Walk(m0, root, n), ops[..done], n)
      {
        assert ops[..done + 1][..done] == ops[..done];
        match ops[done] {
          case MapOp(virt, frame, flags) =>
            var ok := Map(virt, frame, flags);
            if !ok { return; }
          case UnmapOp(virt) => Unmap(virt);
        }
        done := done + 1;
      }
    }

    // ----- vmm_init -----

    /** Page numbers below the bound are mapped to themselves, the others not at all. */
    ghost predicate Identity(bound: nat)
      requires Sized()
      reads phys
    {
      forall n: nat :: n < PAGE_NUMBERS ==> Lookup(n) == Ident(n, bound)
    }

    /** The innermost loop of vmm_init: 512 entries of 2 MiB in the directory of slot (i, j). */
    method FillDirectory(pd: nat, i: nat, j: nat, ghost pdpt: nat)
      requires Valid() && i < 4 && j < ENTRIES
      requires pd in tabs && pdpt in tabs && tabs[pd] == Slot(2, pdpt, j) && tabs[pdpt] == Slot(3, root, i)
      requires forall k :: 0 <= k < ENTRIES ==> At(Mem(), pd, k) == 0
      requires Identity((i * ENTRIES + j) * 0x4_0000)
      modifies phys
      ensures Valid()
      ensures Identity((i * ENTRIES + j + 1) * 0x4_0000)
      ensures forall g: nat, k: nat :: g != pd && k < ENTRIES ==> At(Mem(), g, k) == At(old(Mem()), g, k)
    {
      hide pmm.Used, FrameOf, Put, Index1, Index2, Index3, Index4, Huge, Present, Walk, Tree, Ident;
      InRange();
      for k := 0 to ENTRIES
        invariant Valid()
        invariant Identity(((i * ENTRIES + j) * ENTRIES + k) * 0x200)
        invariant forall h :: k <= h < ENTRIES ==> At(Mem(), pd, h) == 0
        invariant forall g: nat, h: nat :: g != pd && h < ENTRIES ==> At(Mem(), g, h) == At(old(Mem()), g, h)
      {
        ghost var m0 := Mem();
        var e := HugeEntry((i * ENTRIES + j) * ENTRIES + k);
        ZeroNotPresent();
        PutHugeTree(m0, root, tabs, pd, k, e);
        Store(pd, k, e);
        forall n: nat | n < PAGE_NUMBERS
          ensures Lookup(n) == Ident(n, ((i * ENTRIES + j) * ENTRIES + k + 1) * 0x200)
        {
          PutHugeWalk(m0, root, tabs, pd, k, e, n);
          assert Walk(m0, root, n) == Ident(n, ((i * ENTRIES + j) * ENTRIES + k) * 0x200);
          IdentStep(n, i, j, k);
        }
      }
    }

    /** One turn of the middle loop of vmm_init: a directory in slot j of the table in slot i of the root. */
    method FillSlot(pdpt: nat, i: nat, j: nat)
      requires Valid() && i < 4 && j < ENTRIES && At(Mem(), pdpt, j) == 0
      requires pdpt in tabs && tabs[pdpt] == Slot(3, root, i)
      requires Identity((i * ENTRIES + j) * 0x4_0000)
      requires |FreePages(pmm.Used())| >= 1
      modifies this`tabs, phys, pmm`usedBytes, pmm.bitmap
      ensures Valid() && forall g :: g in old(tabs) ==> g in tabs && tabs[g] == old(tabs)[g]
      ensures Identity((i * ENTRIES + j + 1) * 0x4_0000)
      ensures forall g: nat, k: nat :: g in old(tabs) && k < ENTRIES && !(g == pdpt && k == j) ==>
                At(Mem(), g, k) == At(old(Mem()), g, k)
      ensures |FreePages(pmm.Used())| == |FreePages(old(pmm.Used()))| - 1
      ensures Took(old(tabs), old(pmm.Used()), tabs, pmm.Used()) && LowestFirst(old(pmm.Used()), pmm.Used())
    {
      hide pmm.Used, FrameOf, Put, ZeroFrame, Index1, Index2, Index3, Index4, Huge, Present, Walk, Tree, Ident, FreePages, Grow, TableEntry, At, Took, LowestFirst;
      InRange();
      ZeroNotPresent();
      var pd := NewTable(pdpt, j);
      GrewIdentity(old(Mem()), old(tabs), pdpt, j, pd, (i * ENTRIES + j) * 0x4_0000);
      FillDirectory(pd, i, j, pdpt);
    }

    /** The middle loop of vmm_init: slot i of the root and everything below it. */
    method FillPointerTable(i: nat)
      requires Valid() && i < 4 && At(Mem(), root, i) == 0
      requires Identity(i * 0x800_0000)
      requires |FreePages(pmm.Used())| >= 513
      modifies this`tabs, phys, pmm`usedBytes, pmm.bitmap
      ensures Valid()
      ensures Identity((i + 1) * 0x800_0000)
      ensures forall k: nat :: k < ENTRIES && k != i ==> At(Mem(), root, k) == At(old(Mem()), root, k)
      ensures |FreePages(pmm.Used())| == |FreePages(old(pmm.Used()))| - 513
      ensures Took(old(tabs), old(pmm.Used()), tabs, pmm.Used()) && LowestFirst(old(pmm.Used()), pmm.Used())
    {
      hide pmm.Used, FrameOf, Put, ZeroFrame, Index1, Index2, Index3, Index4, Huge, Present, Walk, Tree, Ident, FreePages, Grow, TableEntry, At, Took, LowestFirst;
      RootLevel();
      InRange();
      ZeroNotPresent();
      var pdpt := NewTable(root, i);
      GrewIdentity(old(Mem()), old(tabs), root, i, pdpt, i * 0x800_0000);
      ghost var m1 := Mem();
      for j := 0 to ENTRIES
        invariant Valid() && root in tabs && pdpt in tabs && tabs[pdpt] == Slot(3, root, i) && tabs[root].level == 4
        invariant Identity((i * ENTRIES + j) * 0x4_0000)
        invariant forall k :: j <= k < ENTRIES ==> At(Mem(), pdpt, k) == 0
        invariant forall k: nat :: k < ENTRIES ==> At(Mem(), root, k) == At(m1, root, k)
        invariant |FreePages(pmm.Used())| == |FreePages(old(pmm.Used()))| - 1 - j
        invariant Took(old(tabs), old(pmm.Used()), tabs, pmm.Used()) && LowestFirst(old(pmm.Used()), pmm.Used())
      {
        ghost var t1, u1 := tabs, pmm.Used();
        FillSlot(pdpt, i, j);
        TookBoth(old(tabs), old(pmm.Used()), t1, u1, tabs, pmm.Used());
        LowestBoth(old(pmm.Used()), u1, pmm.Used());
      }
    }

    /** Linking in a fresh table keeps the identity map. */
    lemma GrewIdentity(m0: Memory, t0: Tables, f: nat, i: nat, p: nat, bound: nat)
      requires Sized() && Tree(m0, root, t0)
      requires f in t0 && t0[f].level >= 2 && i < ENTRIES && !Present(At(m0, f, i))
      requires p !in t0 && 1 <= p < MAX_PAGES && f < MAX_PAGES && Mem() == Grow(m0, f, i, p)
      requires forall n: nat :: n < PAGE_NUMBERS ==> Walk(m0, root, n) == Ident(n, bound)
      ensures Identity(bound)
      ensures forall k: nat :: k < ENTRIES ==> At(Mem(), p, k) == 0
      ensures forall g: nat, k: nat :: k < ENTRIES && g != p && !(g == f && k == i) ==> At(Mem(), g, k) == At(m0, g, k)
    {
      hide Walk, Put, ZeroFrame;
      forall n: nat | n < PAGE_NUMBERS ensures Lookup(n) == Ident(n, bound) {
        GrowWalk(m0, root, t0, f, i, p, n);
      }
    }

    /** The outer loop of vmm_init. */
    method FillAll()
      requires Valid() && tabs == map[root := Slot(4, 0, 0)] && Identity(0)
      requires forall k: nat :: k < ENTRIES ==> At(Mem(), root, k) == 0
      requires |FreePages(pmm.Used())| >= 2052
      modifies this`tabs, phys, pmm`usedBytes, pmm.bitmap
      ensures Valid() && Identity(0x2000_0000)
      ensures Took(old(tabs), old(pmm.Used()), tabs, pmm.Used()) && LowestFirst(old(pmm.Used()), pmm.Used())
      ensures |FreePages(pmm.Used())| == |FreePages(old(pmm.Used()))| - 2052
    {
      hide Pmm.Used, FrameOf, Put, ZeroFrame, Index1, Index2, Index3, Index4, Huge, Present, Walk, Tree, Ident, FreePages, Took, LowestFirst, At, Identity, AllPages, Mem;
      TookNone(tabs, pmm.Used());
      LowestNone(pmm.Used());
      for i := 0 to 4
        invariant Valid() && Identity(i * 0x800_0000)
        invariant forall k: nat :: i <= k < ENTRIES ==> At(Mem(), root, k) == 0
        invariant |FreePages(pmm.Used())| == |FreePages(old(pmm.Used()))| - i * 513
        invariant Took(old(tabs), old(pmm.Used()), tabs, pmm.Used()) && LowestFirst(old(pmm.Used()), pmm.Used())
      {
        ghost var t1, u1 := tabs, pmm.Used();
        FillPointerTable(i);
        TookBoth(old(tabs), old(pmm.Used()), t1, u1, tabs, pmm.Used());
        LowestBoth(old(pmm.Used()), u1, pmm.Used());
      }
    }

    /** The root and the pages taken are the tables. */
    lemma TablesTaken(u0: set<nat>)
      requires Valid() && root in u0 && Took(map[root := Slot(4, 0, 0)], u0, tabs, pmm.Used())
      ensures tabs.Keys == {root} + (pmm.Used() - u0)
      ensures |pmm.Used() - u0| == |FreePages(u0)| - |FreePages(pmm.Used())|
    {
      hide Pmm.Used, Tree, Took, FreePages, AllPages;
      var t0 := map[root := Slot(4, 0, 0)];
      assert t0.Keys == {root};
      InRange();
      TookFrom(t0, u0, tabs, pmm.Used());
    }

    /**
     vmm_init: with 2052 free frames, the first 2 to the 41 bytes are mapped to themselves and
     nothing else is mapped.
     */
    constructor (pmm: Pmm, phys: array2<nat>, root: nat)
      requires pmm.Valid() && phys.Length0 == MAX_PAGES && phys.Length1 == ENTRIES
      requires 1 <= root < MAX_PAGES && root in pmm.Used()
      requires |FreePages(pmm.Used())| >= 2052
      modifies phys, pmm`usedBytes, pmm.bitmap
      ensures this.pmm == pmm && this.phys == phys && this.root == root
      ensures Valid()
      ensures Identity(0x2000_0000)
      ensures tabs.Keys == {root} + (pmm.Used() - old(pmm.Used()))
      ensures LowestFirst(old(pmm.Used()), pmm.Used()) && |pmm.Used() - old(pmm.Used())| == 2052
    {
      hide Pmm.Used, FrameOf, Put, ZeroFrame, Index1, Index2, Index3, Index4, Huge, Present, Walk, Tree, Ident, FreePages, Took, LowestFirst;
      this.pmm, this.phys, this.root := pmm, phys, root;
      tabs := map[root := Slot(4, 0, 0)];
      new;
      Zero(root);
      EmptyTree(Mem(), root, tabs);
      FillAll();
      TablesTaken(old(pmm.Used()));
    }
  }

  datatype Op = MapOp(virt: nat, frame: nat, flags: nat) | UnmapOp(virt: nat) {
    /** 64-bit arguments. */
    predicate Ok() { virt < WORD64 && (MapOp? ==> frame < WORD64 && flags < WORD64) }
  }

  /** The flat table's cell n after the calls ops, if it held t before. */
  function Flat(t: Target, ops: seq<Op>, n: nat): Target
  {
    if ops == [] then t
    else
      var u := Flat(t, ops[..|ops| - 1], n);
      var op := ops[|ops| - 1];
      if PageOf(op.virt) != n || u.Large? then u
      else match op
        case MapOp(_, frame, flags) => MapTarget(frame, flags)
        case UnmapOp(_) => Unmapped
  }

  /** With flags below 4096 a mapped page translates to the given frame plus the offset. */
  lemma MappedPhys(virt: nat, frame: nat, flags: nat)
    ensures PhysOf(MapTarget(frame, flags), virt) == frame - frame % PAGE_SIZE + virt % PAGE_SIZE
            <==> Covers(frame / PAGE_SIZE, flags / PAGE_SIZE)
    ensures flags < PAGE_SIZE ==> Covers(frame / PAGE_SIZE, flags / PAGE_SIZE)
  {
    hide Or;
    OrCovers(frame / PAGE_SIZE, flags / PAGE_SIZE);
  }

  /** With the no-execute flag, bit 63, a page mapped to 0x5000 does not translate to it. */
  lemma NoExecuteInFrame(virt: nat)
    ensures PhysOf(MapTarget(0x5000, 0x8000_0000_0000_0000), virt) != 0x5000 + virt % PAGE_SIZE
  {
    hide Or, Covers;
    MappedPhys(virt, 0x5000, 0x8000_0000_0000_0000);
    CoversAtMost(0x5000 / PAGE_SIZE, 0x8000_0000_0000_0000 / PAGE_SIZE);
  }

  /** The identity map of vmm_init, as vmm_phys reports it for the 48-bit addresses. */
  lemma IdentityPhys(v: nat)
    requires v < 0x1_0000_0000_0000
    ensures PhysOf(Ident(PageOf(v), 0x2000_0000), v) == if v < 0x200_0000_0000 then v else 0
  {
  }

  /** The identity map of the page numbers below the bound: writable, not for user mode, executable. */
  function Ident(n: nat, bound: nat): Target
  {
    if n < bound then Large(n, 0x83, Rights(true, false, true)) else Unmapped
  }

  lemma HugeBits(N: nat)
    ensures var e := N * 0x20_0000 + 0x83;
            && e % 2 == 1 && e / 2 % 2 == 1 && e / 4 % 2 == 0 && e / 0x80 % 2 == 1
            && e / 0x20_0000 == N && e % 4096 == 0x83
            && (N < 0x20_0000 ==> e / 0x8000_0000_0000_0000 == 0)
  {
    HugeBit0(N);
    HugeBit1(N);
    HugeBit2(N);
    HugeBit7(N);
    HugeRest(N);
  }

  lemma HugeBit0(N: nat) ensures (N * 0x20_0000 + 0x83) % 2 == 1 { By2(N * 0x10_0000 + 0x41, 1); }
  lemma HugeBit1(N: nat) ensures (N * 0x20_0000 + 0x83) / 2 % 2 == 1 { By2(N * 0x10_0000 + 0x41, 1); By2(N * 0x8_0000 + 0x20, 1); }
  lemma HugeBit2(N: nat) ensures (N * 0x20_0000 + 0x83) / 4 % 2 == 0 { By4(N * 0x8_0000 + 0x20, 3); By2(N * 0x4_0000 + 0x10, 0); }
  lemma HugeBit7(N: nat) ensures (N * 0x20_0000 + 0x83) / 0x80 % 2 == 1 { By128(N * 0x4000 + 1, 3); By2(N * 0x2000, 1); }
  lemma HugeRest(N: nat)
    ensures var e := N * 0x20_0000 + 0x83;
            e / 0x20_0000 == N && e % 4096 == 0x83 && (N < 0x20_0000 ==> e / 0x8000_0000_0000_0000 == 0)
  {
    By2M(N, 0x83);
    By4096(N * 0x200, 0x83);
  }

  /** The 2 MiB entry that maps block N of 2 MiB to itself. */
  function HugeEntry(N: nat): (e: nat)
    ensures Present(e) && Huge(e) && e / 0x20_0000 == N && e % PAGE_SIZE == 0x83
    ensures N < 0x20_0000 ==> RightsOf(e) == Rights(true, false, true)
  {
    HugeBits(N);
    N * 0x20_0000 + PTE_PRESENT + PTE_WRITABLE + PTE_HUGE
  }

  lemma IdentStep(n: nat, i: nat, j: nat, k: nat)
    requires n < PAGE_NUMBERS && i < 4 && j < ENTRIES && k < ENTRIES
    ensures var N := (i * ENTRIES + j) * ENTRIES + k;
            Ident(n, (N + 1) * 0x200) ==
            if Index4(n) == i && Index3(n) == j && Index2(n) == k then Large(N * ENTRIES + Index1(n), 0x83, Rights(true, false, true))
            else Ident(n, N * 0x200)
  {
    hide Index1, Index2, Index3, Index4;
    PageNumber(n);
  }

  lemma EmptyTree(mem: Memory, root: nat, tabs: Tables)
    requires Shaped(mem) && 1 <= root < MAX_PAGES && tabs == map[root := Slot(4, 0, 0)]
    requires forall k: nat :: k < ENTRIES ==> At(mem, root, k) == 0
    ensures Tree(mem, root, tabs)
    ensures forall n: nat :: Walk(mem, root, n) == Ident(n, 0)
  {
    hide Index1, Index2, Index3, Index4;
    ZeroNotPresent();
  }

  lemma HugeOffset(e: nat, virt: nat)
    ensures e / 0x20_0000 * 0x20_0000 + virt % 0x20_0000
            == (e / 0x20_0000 * ENTRIES + virt / PAGE_SIZE % ENTRIES) * PAGE_SIZE + virt % PAGE_SIZE
  {
    Shift9(virt);
    var q := virt / PAGE_SIZE;
    assert virt == q * PAGE_SIZE + virt % PAGE_SIZE;
    assert q == q / 0x200 * 0x200 + q % 0x200;
  }

  lemma AllUsed(used: set<nat>)
    requires forall p :: 1 <= p < MAX_PAGES ==> p in used
    ensures FreePages(used) == {}
  {
  }

  lemma SameMemory(m: Memory, r: Memory)
    requires Shaped(m) && Shaped(r)
    requires forall f: nat, i: nat :: f < MAX_PAGES && i < ENTRIES ==> m[f][i] == r[f][i]
    ensures m == r
  {
    forall f | 0 <= f < MAX_PAGES ensures m[f] == r[f] {
    }
  }
}
