/**
 The first steps of the kernel on x86_64: pmm_init, vmm_init and heap_init. Nothing marks the
 pages of the heap as used, and the page tables take the lowest free pages.
 */
module Boot {

  import opened Bytes
  import opened Machine
  import opened Pmm
  import opened PageTable
  import opened Vmm

  /** The pages of the heap: 8 MiB from 4 MiB on. */
  ghost function HeapPages(): set<nat> { Pages(1024, 3072) }

  /** Pages in use after pmm_init. */
  ghost function InitiallyUsed(map_: seq<E820>, bssEnd: nat, bmStart: nat): set<nat>
  {
    (AllPages() - Ram(X64, map_)) + Reserved(X64, bssEnd, bmStart)
  }

  /** Of so many pages taken, some page lies at a or above. */
  lemma SomeAtOrAbove(taken: set<nat>, a: nat)
    requires 1 <= a <= MAX_PAGES && 0 !in taken && |taken| >= a
    ensures exists p :: p in taken && p >= a
  {
    if forall p :: p in taken ==> p < a {
      assert taken <= Pages(1, a);
      PagesSize(1, a - 1);
      SubsetSize(taken, Pages(1, a));
    }
  }

  /**
   When more pages are taken than there are below the range from a to b, lowest first, the pages
   taken avoid the range exactly when none of it was free, and page a is taken if it was free.
   */
  lemma RangeHit(u0: set<nat>, u1: set<nat>, a: nat, b: nat)
    requires LowestFirst(u0, u1) && 1 <= a < b <= MAX_PAGES && 0 !in u1 - u0 && |u1 - u0| >= a
    ensures (u1 - u0) !! Pages(a, b) <==> Pages(a, b) <= u0
    ensures a !in u0 ==> a in u1
  {
    SomeAtOrAbove(u1 - u0, a);
    var p :| p in u1 - u0 && p >= a;
    if !(Pages(a, b) <= u0) {
      var h :| h in Pages(a, b) && h !in u0;
      assert a <= h < b;
      var hit := if p < b then p else h;
      assert hit in u1 - u0 && hit in Pages(a, b);
    }
  }

  /**
   pmm_init and vmm_init: the page tables keep clear of the heap exactly when no page of the heap is
   usable RAM outside the kernel; and if its first page is, heap_init writes its header over a table.
   */
  method Start(bits: array<bv8>, phys: array2<nat>, map_: seq<E820>, bssEnd: nat, bmStart: nat, root: nat) returns (vmm: Vmm)
    requires bits.Length == BITMAP_BYTES && phys.Length0 == MAX_PAGES && phys.Length1 == ENTRIES
    requires forall i :: 0 <= i < |map_| ==> map_[i].base < WORD64 && map_[i].length < WORD64
    requires bssEnd < WORD64 && bmStart + BITMAP_BYTES < WORD64
    requires 1 <= root < MAX_PAGES && root in InitiallyUsed(map_, bssEnd, bmStart) && root !in HeapPages()
    requires |FreePages(InitiallyUsed(map_, bssEnd, bmStart))| >= 2052
    modifies bits, phys
    ensures vmm.Valid() && vmm.Identity(0x2000_0000)
    ensures vmm.tabs.Keys !! HeapPages() <==> HeapPages() !! (Ram(X64, map_) - Reserved(X64, bssEnd, bmStart))
    ensures 1024 in Ram(X64, map_) - Reserved(X64, bssEnd, bmStart) ==> 1024 in vmm.tabs
  {
    hide Pmm.Used, Ram, Reserved, LowestFirst, FreePages, Tree, Walk, Ident;
    var pmm := new Pmm(X64, bits, map_, bssEnd, bmStart);
    ghost var u0 := pmm.Used();
    vmm := new Vmm(pmm, phys, root);
    TakenFromOne(vmm, u0);
    RangeHit(u0, vmm.pmm.Used(), 1024, 3072);
    FreeHeapPages(map_, bssEnd, bmStart);
  }

  lemma TakenFromOne(vmm: Vmm, u0: set<nat>)
    requires vmm.Valid() && vmm.tabs.Keys == {vmm.root} + (vmm.pmm.Used() - u0)
    ensures 0 !in vmm.pmm.Used() - u0
  {
    vmm.InRange();
  }

  lemma FreeHeapPages(map_: seq<E820>, bssEnd: nat, bmStart: nat)
    ensures HeapPages() <= InitiallyUsed(map_, bssEnd, bmStart)
            <==> HeapPages() !! (Ram(X64, map_) - Reserved(X64, bssEnd, bmStart))
    ensures 1024 in InitiallyUsed(map_, bssEnd, bmStart) <==> 1024 !in Ram(X64, map_) - Reserved(X64, bssEnd, bmStart)
  {
    hide Ram, Reserved;
    forall p | p in HeapPages() ensures p in AllPages() { }
  }

  function SmallMap(): seq<E820> { [E820(0x10_0000, 0x7F0_0000, E820_TYPE_USABLE)] }

  lemma SmallRam()
    ensures Ram(X64, SmallMap()) == Pages(0x100, 0x8000)
  {
    EntryPages(X64, SmallMap()[0]);
  }

  lemma SmallKernel()
    ensures Reserved(X64, 0x28_0000, 0x20_0000) <= Pages(0, 0x280)
  {
    hide AlignPtr;
    RoundUp(X64, 0x28_0000);
    RoundUp(X64, 0x20_0000 + BITMAP_BYTES);
  }

  /** With RAM from 1 MiB to 128 MiB and a kernel that ends at 2.5 MiB, the first page of the heap is free. */
  lemma HeapIsFreeRam()
    ensures 1024 in Ram(X64, SmallMap()) - Reserved(X64, 0x28_0000, 0x20_0000)
    ensures |FreePages(InitiallyUsed(SmallMap(), 0x28_0000, 0x20_0000))| >= 2052
  {
    hide Ram, Reserved, SmallMap;
    SmallRam();
    SmallKernel();
    var free := Pages(0x280, 0x8000);
    assert free <= FreePages(InitiallyUsed(SmallMap(), 0x28_0000, 0x20_0000));
    PagesSize(0x280, 0x8000 - 0x280);
    SubsetSize(free, FreePages(InitiallyUsed(SmallMap(), 0x28_0000, 0x20_0000)));
  }
}
