/**
 The physical page allocator: one bit per 4 KiB page, set when the page is in use.
 */
module Pmm {

  import opened Bytes
  import opened Machine

  const MAX_PAGES: nat := 512 * 1024
  const BITMAP_BYTES: nat := MAX_PAGES / 8
  const PAGE_SIZE: nat := 4096
  const E820_TYPE_USABLE: nat := 1

  datatype E820 = E820(base: nat, length: nat, kind: nat)

  // ----- bits of a byte -----

  predicate Bit(b: bv8, k: nat)
    requires k < 8
  {
    (b >> k) & 1 == 1
  }

  function WithBit(b: bv8, k: nat): bv8
    requires k < 8
  {
    b | (1 << k)
  }

  function WithoutBit(b: bv8, k: nat): bv8
    requires k < 8
  {
    b & !(1 << k)
  }

  lemma BitSet(b: bv8, k: nat, j: nat)
    requires k < 8 && j < 8
    ensures Bit(WithBit(b, k), j) <==> j == k || Bit(b, j)
  {
    ShiftCases(k);
    ShiftCases(j);
  }

  lemma BitClear(b: bv8, k: nat, j: nat)
    requires k < 8 && j < 8
    ensures Bit(WithoutBit(b, k), j) <==> j != k && Bit(b, j)
  {
    ShiftCases(k);
    ShiftCases(j);
  }

  lemma ShiftCases(k: nat)
    requires k < 8
    ensures k == 0 || k == 1 || k == 2 || k == 3 || k == 4 || k == 5 || k == 6 || k == 7
  {
  }

  // ----- sets of pages -----

  predicate Within(p: nat, lo: nat, hi: nat) { lo <= p < hi }

  /** Pages lo up to hi, as far as the bitmap covers them. */
  ghost function Pages(lo: nat, hi: nat): set<nat>
  {
    set p: nat | p < MAX_PAGES && Within(p, lo, hi)
  }

  ghost function AllPages(): set<nat> { Pages(0, MAX_PAGES) }

  lemma PagesSnoc(lo: nat, hi: nat)
    requires lo <= hi < MAX_PAGES
    ensures Pages(lo, hi + 1) == Pages(lo, hi) + {hi} && hi !in Pages(lo, hi)
  {
  }

  /** Page j of a clear run, when the pages of the run before it have been taken. */
  lemma RunPage(used: set<nat>, s: nat, n: nat, j: nat)
    requires ClearRun(used, s, n) && s <= j < s + n
    ensures j !in used + Pages(s, j)
    ensures used + Pages(s, j) + {j} == used + Pages(s, j + 1)
  {
    PagesSnoc(s, j);
  }

  lemma PagesNil(lo: nat)
    ensures Pages(lo, lo) == {}
  {
  }

  /** n pages from s on, all covered, none of them page 0, none in use. */
  ghost predicate ClearRun(used: set<nat>, s: nat, n: nat)
  {
    1 <= s && s + n <= MAX_PAGES && forall p :: s <= p < s + n ==> p !in used
  }

  lemma ClearRunBound(used: set<nat>, s: nat, n: nat)
    requires ClearRun(used, s, n)
    ensures s + n <= MAX_PAGES
  {
  }

  ghost predicate LowestClearRun(used: set<nat>, s: nat, n: nat)
  {
    ClearRun(used, s, n) && forall t :: 0 <= t < s ==> !ClearRun(used, t, n)
  }

  lemma RunFound(used: set<nat>, s: nat, n: nat)
    requires 1 <= s && s + n <= MAX_PAGES && forall p :: s <= p < s + n ==> p !in used
    ensures ClearRun(used, s, n)
  {
  }

  lemma NoRunAtZero(used: set<nat>, n: nat)
    ensures !ClearRun(used, 0, n)
  {
  }

  /** A page in use spoils every run that would contain it. */
  lemma NoRunOver(used: set<nat>, lo: nat, i: nat, n: nat)
    requires i in used && i < lo + n
    ensures forall s :: lo <= s < i + 1 ==> !ClearRun(used, s, n)
  {
    forall s | lo <= s < i + 1 ensures !ClearRun(used, s, n) {
      assert s <= i < s + n && i in used;
    }
  }

  /** Nothing that starts in the last run pages is long enough. */
  lemma NoRunPast(used: set<nat>, run: nat, n: nat)
    requires run < n && run <= MAX_PAGES
    requires forall s :: 0 <= s < MAX_PAGES - run ==> !ClearRun(used, s, n)
    ensures forall s: nat :: !ClearRun(used, s, n)
  {
  }

  lemma SubsetSize(a: set<nat>, b: set<nat>)
    requires a <= b
    ensures |a| <= |b| && |b - a| == |b| - |a|
  {
    assert b == a + (b - a);
  }

  lemma {:induction false} PagesSize(lo: nat, n: nat)
    requires lo + n <= MAX_PAGES
    ensures |Pages(lo, lo + n)| == n
  {
    hide Pages;
    if n == 0 {
      PagesNil(lo);
    } else {
      PagesSize(lo, n - 1);
      PagesSnoc(lo, lo + n - 1);
    }
  }

  // ----- address arithmetic -----

  /** a & ~(PAGE_SIZE - 1): the mask has the width of unsigned long. */
  function AlignDown(arch: Arch, a: nat): nat
  {
    arch.Wrap(a) - arch.Wrap(a) % PAGE_SIZE
  }

  /** PAGE_ALIGN of a 64-bit address. */
  function Align64(arch: Arch, a: nat): nat
  {
    AlignDown(arch, (a + PAGE_SIZE - 1) % WORD64)
  }

  /** PAGE_ALIGN of a uptr. */
  function AlignPtr(arch: Arch, a: nat): (r: nat)
    ensures r < arch.WordMod()
  {
    AlignDown(arch, a + PAGE_SIZE - 1)
  }

  function RamStart(arch: Arch, e: E820): nat { Align64(arch, e.base) }

  function RamEnd(arch: Arch, e: E820): nat { AlignDown(arch, (e.base + e.length) % WORD64) }

  /** Pages pmm_init takes for usable RAM; Covered says what the memory map means. */
  ghost function Ram(arch: Arch, map_: seq<E820>): set<nat>
  {
    set p: nat | p < MAX_PAGES && InMap(arch, map_, p)
  }

  ghost predicate InMap(arch: Arch, map_: seq<E820>, p: nat)
  {
    exists i :: 0 <= i < |map_| && InEntry(arch, map_[i], p)
  }

  predicate InEntry(arch: Arch, e: E820, p: nat)
  {
    e.kind == E820_TYPE_USABLE && RamStart(arch, e) / PAGE_SIZE <= p < RamEnd(arch, e) / PAGE_SIZE
  }

  /** Page freed by the i-th call that pmm_free_n makes: i << 12 is a 32-bit shift. */
  function FreedPage(arch: Arch, phys: nat, i: nat): nat
  {
    arch.Wrap(phys + i * PAGE_SIZE % WORD32) / PAGE_SIZE
  }

  class Pmm {
    const arch: Arch
    const bitmap: array<bv8>
    var totalBytes: nat
    var usedBytes: nat

    ghost predicate Sized()
    {
      bitmap.Length == BITMAP_BYTES
    }

    /** The pages whose bit is set. */
    ghost function Used(): (u: set<nat>)
      requires Sized()
      reads bitmap
      ensures u <= AllPages()
    {
      set p: nat | p < MAX_PAGES && Bit(bitmap[p / 8], p % 8)
    }

    /** The counter agrees with the bitmap. */
    ghost predicate Valid()
      reads this, bitmap
    {
      Sized() && usedBytes == PAGE_SIZE * |Used()| && totalBytes < WORD64
    }

    predicate TestPage(p: nat)
      requires Sized() && p < MAX_PAGES
      reads bitmap
      ensures TestPage(p) <==> p in Used()
    {
      Bit(bitmap[p / 8], p % 8)
    }

    method SetPage(p: nat)
      requires Sized() && p < MAX_PAGES
      modifies bitmap
      ensures Used() == old(Used()) + {p}
    {
      hide Bit, WithBit;
      ghost var was := bitmap[p / 8];
      bitmap[p / 8] := WithBit(bitmap[p / 8], p % 8);
      forall q: nat | q < MAX_PAGES
        ensures Bit(bitmap[q / 8], q % 8) <==> q == p || old(Bit(bitmap[q / 8], q % 8))
      {
        if q / 8 == p / 8 { BitSet(was, p % 8, q % 8); }
      }
    }

    method ClearPage(p: nat)
      requires Sized() && p < MAX_PAGES
      modifies bitmap
      ensures Used() == old(Used()) - {p}
    {
      hide Bit, WithoutBit;
      ghost var was := bitmap[p / 8];
      bitmap[p / 8] := WithoutBit(bitmap[p / 8], p % 8);
      forall q: nat | q < MAX_PAGES
        ensures Bit(bitmap[q / 8], q % 8) <==> q != p && old(Bit(bitmap[q / 8], q % 8))
      {
        if q / 8 == p / 8 { BitClear(was, p % 8, q % 8); }
      }
    }

    /** Pages up to i that are in use: what the final count of pmm_init has seen. */
    ghost function UsedBelow(i: nat): set<nat>
      requires Sized()
      reads bitmap
    {
      Used() * Pages(0, i)
    }

    method MarkUsed(start: nat, end: nat)
      requires Sized() && start < arch.WordMod() && end < arch.WordMod()
      modifies this`usedBytes, bitmap
      ensures Used() == old(Used()) + Pages(start / PAGE_SIZE, AlignPtr(arch, end) / PAGE_SIZE)
      ensures usedBytes == old(usedBytes) + PAGE_SIZE * (|Used()| - |old(Used())|)
    {
      hide Used, Bit, TestPage;
      var p := start / PAGE_SIZE;
      var pEnd := AlignPtr(arch, end) / PAGE_SIZE;
      ghost var lo := p;
      assert Pages(lo, lo) == {};
      while p < pEnd && p < MAX_PAGES
        invariant lo <= p && (p <= pEnd || p == lo)
        invariant Used() == old(Used()) + Pages(lo, p)
        invariant usedBytes == old(usedBytes) + PAGE_SIZE * (|Used()| - |old(Used())|)
      {
        ghost var u := Used();
        PagesSnoc(lo, p);
        if !TestPage(p) {
          SetPage(p);
          usedBytes := usedBytes + PAGE_SIZE;
          assert |u + {p}| == |u| + 1;
        }
        assert Used() == u + {p};
        p := p + 1;
      }
      assert Pages(lo, p) == Pages(lo, pEnd);
    }

    /** Clear the bits of one usable entry. */
    method ClearEntry(e: E820)
      requires Sized() && totalBytes < WORD64
      modifies this`totalBytes, bitmap
      ensures Used() == old(Used()) - Ram(arch, [e])
      ensures totalBytes == (old(totalBytes) + EntryBytes(arch, e)) % WORD64
    {
      hide Used, Bit, TestPage;
      var start, end := RamStart(arch, e), RamEnd(arch, e);
      EntryPages(arch, e);
      if e.kind != E820_TYPE_USABLE || end <= start { return; }
      totalBytes := (totalBytes + (end - start)) % WORD64;
      var p, pEnd := start / PAGE_SIZE, end / PAGE_SIZE;
      ghost var lo := p;
      assert Pages(lo, lo) == {};
      while p < pEnd && p < MAX_PAGES
        invariant lo <= p && (p <= pEnd || p == lo)
        invariant Used() == old(Used()) - Pages(lo, p)
        invariant totalBytes == (old(totalBytes) + EntryBytes(arch, e)) % WORD64
      {
        assert Pages(lo, p + 1) == Pages(lo, p) + {p};
        ClearPage(p);
        p := p + 1;
      }
      assert Pages(lo, p) == Pages(lo, pEnd);
    }

    /**
     pmm_init: afterwards exactly what it takes for usable RAM, outside the first MiB, the kernel
     and the bitmap itself, is free, and the counter agrees with the bitmap.
     */
    constructor (arch: Arch, bits: array<bv8>, map_: seq<E820>, bssEnd: nat, bmStart: nat)
      requires bits.Length == BITMAP_BYTES
      requires forall i :: 0 <= i < |map_| ==> map_[i].base < WORD64 && map_[i].length < WORD64
      requires bssEnd < arch.WordMod() && bmStart + BITMAP_BYTES < arch.WordMod()
      modifies bits
      ensures this.arch == arch && this.bitmap == bits
      ensures Valid()
      ensures Used() == (AllPages() - Ram(arch, map_)) + Reserved(arch, bssEnd, bmStart)
      ensures totalBytes == TotalBytes(arch, map_)
    {
      this.arch, this.bitmap := arch, bits;
      totalBytes, usedBytes := 0, 0;
      new;
      hide Used, Bit, TestPage, AlignDown, Ram, TotalBytes, Pages, AllPages, AlignPtr;
      FillBitmap();
      ClearRam(map_);
      MarkReserved(bssEnd, bmStart);
      CountUsed();
    }

    method MarkReserved(bssEnd: nat, bmStart: nat)
      requires Sized() && bssEnd < arch.WordMod() && bmStart + BITMAP_BYTES < arch.WordMod()
      modifies this`usedBytes, bitmap
      ensures Used() == old(Used()) + Reserved(arch, bssEnd, bmStart)
    {
      hide Used, Bit, TestPage, AlignDown, Pages, AllPages, AlignPtr;
      OneMiB(arch);
      MarkUsed(0, 0x100000);
      MarkUsed(0x10000, AlignPtr(arch, bssEnd));
      MarkUsed(bmStart, AlignPtr(arch, bmStart + BITMAP_BYTES));
    }

    /** The loop of pmm_init over the memory map. */
    method ClearRam(map_: seq<E820>)
      requires Sized() && Used() == AllPages() && totalBytes == 0
      modifies this`totalBytes, bitmap
      ensures Used() == AllPages() - Ram(arch, map_)
      ensures totalBytes == TotalBytes(arch, map_) < WORD64
    {
      hide Used, Bit, TestPage, AlignDown, Ram, EntryBytes, Pages;
      RamNil(arch);
      assert map_[..0] == [];
      for i := 0 to |map_|
        invariant Used() == AllPages() - Ram(arch, map_[..i])
        invariant totalBytes == TotalBytes(arch, map_[..i]) < WORD64
      {
        RamSnoc(arch, map_, i);
        ClearEntry(map_[i]);
        assert map_[..i + 1][..i] == map_[..i];
      }
      assert map_[..|map_|] == map_;
    }

    method FillBitmap()
      requires Sized()
      modifies bitmap
      ensures Used() == AllPages()
    {
      for i := 0 to BITMAP_BYTES
        invariant forall j :: 0 <= j < i ==> bitmap[j] == 0xFF
      {
        bitmap[i] := 0xFF;
      }
      forall p: nat | p < MAX_PAGES ensures Bit(bitmap[p / 8], p % 8) {
        ShiftCases(p % 8);
      }
    }

    method CountUsed()
      requires Sized()
      modifies this`usedBytes
      ensures usedBytes == PAGE_SIZE * |Used()|
    {
      hide Used, Bit, TestPage;
      usedBytes := 0;
      assert UsedBelow(0) == {};
      for i := 0 to MAX_PAGES
        invariant usedBytes == PAGE_SIZE * |UsedBelow(i)|
      {
        assert UsedBelow(i + 1) == if i in Used() then UsedBelow(i) + {i} else UsedBelow(i);
        if TestPage(i) { usedBytes := usedBytes + PAGE_SIZE; }
      }
      assert UsedBelow(MAX_PAGES) == Used();
    }

    /** pmm_alloc: the lowest free page above page 0, or 0 when there is none. */
    method Alloc() returns (addr: nat)
      requires Valid()
      modifies this`usedBytes, bitmap
      ensures Valid()
      ensures addr == 0 ==> Used() == old(Used()) && forall p :: 1 <= p < MAX_PAGES ==> p in Used()
      ensures addr != 0 ==> var p := addr / PAGE_SIZE;
                addr == p * PAGE_SIZE && LowestClearRun(old(Used()), p, 1) && Used() == old(Used()) + {p}
    {
      hide Used, Bit, TestPage;
      for i := 1 to MAX_PAGES
        invariant Valid() && Used() == old(Used())
        invariant forall p :: 1 <= p < i ==> p in Used()
      {
        if !TestPage(i) {
          forall t | 0 <= t < i ensures !ClearRun(Used(), t, 1) {
            if t > 0 { assert t <= t < t + 1 && t in Used(); }
          }
          SetPage(i);
          usedBytes := usedBytes + PAGE_SIZE;
          return i * PAGE_SIZE;
        }
      }
      return 0;
    }

    /** pmm_alloc_n: the lowest run of n free pages, or 0 when there is none or n is 0. */
    method AllocN(n: nat) returns (addr: nat)
      requires Valid() && n < WORD32
      modifies this`usedBytes, bitmap
      ensures Valid()
      ensures addr == 0 ==> Used() == old(Used()) && (n == 0 || forall s: nat :: !ClearRun(Used(), s, n))
      ensures addr != 0 ==> var s := addr / PAGE_SIZE;
                addr == s * PAGE_SIZE && n > 0 && LowestClearRun(old(Used()), s, n)
                && Used() == old(Used()) + Pages(s, s + n)
    {
      hide Used, Bit, TestPage, Pages, AllPages, ClearRun;
      NoRunAtZero(Used(), n);
      if n == 0 { return 0; }
      var run, start := 0, 0;
      for i := 1 to MAX_PAGES
        invariant run < n && run < i && (run > 0 ==> start == i - run)
        invariant Used() == old(Used())
        invariant usedBytes == old(usedBytes)
        invariant forall p :: i - run <= p < i ==> p !in Used()
        invariant forall s :: 0 <= s < i - run ==> !ClearRun(Used(), s, n)
      {
        if !TestPage(i) {
          if run == 0 { start := i; }
          run := run + 1;
          if run == n {
            assert ClearRun(Used(), start, n) by { RunFound(Used(), start, n); }
            TakeRun(start, n);
            return start * PAGE_SIZE;
          }
        } else {
          NoRunOver(Used(), i - run, i, n);
          run := 0;
        }
      }
      NoRunPast(Used(), run, n);
      return 0;
    }

    /** The inner loop of pmm_alloc_n. */
    method TakeRun(start: nat, n: nat)
      requires Valid() && ClearRun(Used(), start, n)
      modifies this`usedBytes, bitmap
      ensures Valid() && Used() == old(Used()) + Pages(start, start + n)
    {
      hide Used, Bit, TestPage, Pages, AllPages, ClearRun;
      ClearRunBound(Used(), start, n);
      PagesNil(start);
      for j := start to start + n
        invariant Valid() && Used() == old(Used()) + Pages(start, j)
      {
        ghost var u := Used();
        RunPage(old(Used()), start, n, j);
        SetPage(j);
        usedBytes := usedBytes + PAGE_SIZE;
        assert |u + {j}| == |u| + 1;
      }
    }

    /** pmm_free: a page that is not in use, or not covered, is ignored. */
    method Free(phys: nat)
      requires Valid()
      modifies this`usedBytes, bitmap
      ensures Valid() && Used() == old(Used()) - {phys / PAGE_SIZE}
    {
      hide Used, Bit, TestPage;
      var idx := phys / PAGE_SIZE;
      if idx >= MAX_PAGES || !TestPage(idx) {
        assert idx !in Used();
        return;
      }
      ClearPage(idx);
      usedBytes := usedBytes - PAGE_SIZE;
    }

    method FreeN(phys: nat, n: nat)
      requires Valid() && phys < arch.WordMod() && n < WORD32
      modifies this`usedBytes, bitmap
      ensures Valid() && Used() == old(Used()) - FreedPages(arch, phys, n)
    {
      hide Used, Bit, TestPage;
      for i := 0 to n
        invariant Valid() && Used() == old(Used()) - FreedPages(arch, phys, i)
      {
        FreedPagesSnoc(arch, phys, i);
        Free(arch.Wrap(phys + i * PAGE_SIZE % WORD32));
      }
    }

    /** pmm_available, in 64-bit arithmetic. */
    function Available(): (n: nat)
      reads this
      ensures n < WORD64
    {
      (totalBytes - usedBytes) % WORD64
    }

    /**
     pmm_available subtracts every page in use, RAM or not, from the bytes counted as usable. In
     every state it tells the free bytes exactly when pmm_init counted 2 GiB.
     */
    lemma AvailableIff()
      requires Valid()
      ensures Available() == 4096 * |AllPages() - Used()| <==> totalBytes == 0x8000_0000
    {
      SubsetSize(Used(), AllPages());
      PagesSize(0, MAX_PAGES);
    }

    /** With 127 MiB of RAM of which 112 are free, it reports more than 2 to the 63 bytes. */
    lemma AvailableWraps()
      requires Valid() && totalBytes == 0x7F0_0000 && |Used()| == MAX_PAGES - 0x7000
      ensures |AllPages() - Used()| == 0x7000 && Available() > 0x8000_0000_0000_0000
    {
      SubsetSize(Used(), AllPages());
      PagesSize(0, MAX_PAGES);
    }
  }

  // ----- what pmm_init is given -----

  function EntryBytes(arch: Arch, e: E820): nat
  {
    if e.kind == E820_TYPE_USABLE && RamEnd(arch, e) > RamStart(arch, e) then RamEnd(arch, e) - RamStart(arch, e) else 0
  }

  /** Bytes pmm_init counts as usable, in a 64-bit counter. */
  function TotalBytes(arch: Arch, map_: seq<E820>): (n: nat)
    ensures n < WORD64
  {
    if map_ == [] then 0
    else (TotalBytes(arch, map_[..|map_| - 1]) + EntryBytes(arch, map_[|map_| - 1])) % WORD64
  }

  // ----- what the memory map means -----

  /** The entry reports all of page p as usable. */
  predicate Covered(e: E820, p: nat)
  {
    e.kind == 1 && e.base <= p * PAGE_SIZE && (p + 1) * PAGE_SIZE <= e.base + e.length
  }

  /** The usable pages of a memory map, as far as the bitmap reaches. */
  ghost function UsableRam(map_: seq<E820>): set<nat>
  {
    set p: nat | p < MAX_PAGES && CoveredBy(map_, p)
  }

  ghost predicate CoveredBy(map_: seq<E820>, p: nat)
  {
    exists i :: 0 <= i < |map_| && Covered(map_[i], p)
  }

  /** The first whole page of an entry, and the first page after its last whole one. */
  function FirstPage(e: E820): nat { (e.base + PAGE_SIZE - 1) / PAGE_SIZE }
  function PastPage(e: E820): nat { (e.base + e.length) / PAGE_SIZE }

  /** Pages a pointer can address. */
  function WordPages(arch: Arch): nat { if arch.X86? then 0x10_0000 else 0x10_0000_0000_0000 }

  /** A page number cut to the width of a pointer. */
  function Cut(arch: Arch, a: nat): (c: nat)
    ensures a < WordPages(arch) ==> c == a
  {
    a % WordPages(arch)
  }

  lemma CoveredPages(e: E820, p: nat)
    ensures Covered(e, p) <==> e.kind == E820_TYPE_USABLE && Within(p, FirstPage(e), PastPage(e))
  {
  }

  /** The page number of a truncated address is the truncated page number. */
  lemma PagesWrap(arch: Arch, x: nat)
    ensures AlignDown(arch, x % WORD64) / PAGE_SIZE == Cut(arch, x / PAGE_SIZE)
  {
    DroppedBits(arch, x);
    if arch.X86? { PageOf32(x); } else { PageOf64(x); }
  }

  lemma DroppedBits(arch: Arch, x: nat)
    ensures AlignDown(arch, x % WORD64) / PAGE_SIZE == (if arch.X86? then x % WORD32 else x % WORD64) / PAGE_SIZE
  {
    var y := arch.Wrap(x % WORD64);
    WholePages(y);
    LowWord(x);
  }

  lemma WholePages(y: nat)
    ensures (y - y % PAGE_SIZE) / PAGE_SIZE == y / PAGE_SIZE
  {
  }

  lemma LowWord(x: nat)
    ensures x % WORD64 % WORD32 == x % WORD32 && x % WORD64 % WORD64 == x % WORD64
  {
    var q := x / WORD64;
    assert x == q * WORD32 * WORD32 + x % WORD64;
  }

  lemma PageOf32(x: nat)
    ensures x % WORD32 / PAGE_SIZE == x / PAGE_SIZE % 0x10_0000
  {
    var q, r := x / WORD32, x % WORD32;
    assert x / PAGE_SIZE == q * 0x10_0000 + r / PAGE_SIZE;
  }

  lemma PageOf64(x: nat)
    ensures x % WORD64 / PAGE_SIZE == x / PAGE_SIZE % 0x10_0000_0000_0000
  {
    var q, r := x / WORD64, x % WORD64;
    assert x / PAGE_SIZE == q * 0x10_0000_0000_0000 + r / PAGE_SIZE;
  }

  /**
   The truncated bounds of an entry give its pages below 2 GiB: for one that has such pages, its end
   must not wrap to a page below 2 GiB; for one that has none, the wrapped bounds must not make any up.
   */
  predicate Survives(arch: Arch, e: E820)
  {
    var a, b, v := FirstPage(e), PastPage(e), WordPages(arch);
    || e.kind != E820_TYPE_USABLE
    || (if a < b && a < MAX_PAGES
        then b < v || Cut(arch, b) >= MAX_PAGES
        else Cut(arch, a) >= Cut(arch, b) || Cut(arch, a) >= MAX_PAGES)
  }

  /** Two windows on the pages below 2 GiB, the second with bounds that wrapped where they had to. */
  lemma WindowIff(a: nat, b: nat, c: nat, d: nat, v: nat)
    requires v >= MAX_PAGES && (a < v ==> c == a) && (b < v ==> d == b)
    ensures (forall p: nat :: p < MAX_PAGES ==> (Within(p, c, d) <==> Within(p, a, b)))
            <==> (if a < b && a < MAX_PAGES then b < v || d >= MAX_PAGES else c >= d || c >= MAX_PAGES)
  {
    if a < b && a < MAX_PAGES {
      if b >= v && d < MAX_PAGES {
        var p := if d <= a then a else d;
        assert p < MAX_PAGES && Within(p, a, b) && !Within(p, c, d);
      }
    } else if c < d && c < MAX_PAGES {
      assert Within(c, c, d) && !Within(c, a, b);
    }
  }

  /** pmm_init takes an entry for what it says, page by page, exactly when it survives the truncation. */
  lemma EntryIff(arch: Arch, e: E820)
    ensures (forall p: nat :: p < MAX_PAGES ==> (InEntry(arch, e, p) <==> Covered(e, p))) <==> Survives(arch, e)
  {
    hide AlignDown, Covered, InEntry, FirstPage, PastPage, Within, Cut;
    var a, b, v := FirstPage(e), PastPage(e), WordPages(arch);
    forall p: nat ensures Covered(e, p) <==> e.kind == E820_TYPE_USABLE && Within(p, a, b) {
      CoveredPages(e, p);
    }
    forall p: nat ensures InEntry(arch, e, p) <==> e.kind == E820_TYPE_USABLE && Within(p, Cut(arch, a), Cut(arch, b)) {
      EntryWindow(arch, e, p);
    }
    WindowIff(a, b, Cut(arch, a), Cut(arch, b), v);
    if e.kind == E820_TYPE_USABLE && !Survives(arch, e) {
      var p: nat :| p < MAX_PAGES && Within(p, Cut(arch, a), Cut(arch, b)) != Within(p, a, b);
      assert InEntry(arch, e, p) != Covered(e, p);
    }
  }

  lemma EntryWindow(arch: Arch, e: E820, p: nat)
    ensures InEntry(arch, e, p)
            <==> e.kind == E820_TYPE_USABLE && Within(p, Cut(arch, FirstPage(e)), Cut(arch, PastPage(e)))
  {
    EntryBounds(arch, e);
  }

  lemma EntryBounds(arch: Arch, e: E820)
    ensures RamStart(arch, e) / PAGE_SIZE == Cut(arch, FirstPage(e))
    ensures RamEnd(arch, e) / PAGE_SIZE == Cut(arch, PastPage(e))
  {
    hide AlignDown;
    PagesWrap(arch, e.base + PAGE_SIZE - 1);
    PagesWrap(arch, e.base + e.length);
  }

  /** A map whose entries all survive frees exactly the pages it reports. */
  lemma MapSurvives(arch: Arch, map_: seq<E820>)
    requires forall i :: 0 <= i < |map_| ==> Survives(arch, map_[i])
    ensures Ram(arch, map_) == UsableRam(map_)
  {
    hide InEntry, Covered, Survives;
    forall p: nat | p < MAX_PAGES ensures InMap(arch, map_, p) <==> CoveredBy(map_, p) {
      forall i | 0 <= i < |map_| ensures InEntry(arch, map_[i], p) <==> Covered(map_[i], p) {
        EntryIff(arch, map_[i]);
      }
    }
  }

  /** Entries that end within the addresses of a pointer survive. */
  lemma BelowTopSurvives(arch: Arch, e: E820)
    requires e.base + PAGE_SIZE <= arch.WordMod() && e.base + e.length < arch.WordMod()
    ensures Survives(arch, e)
  {
  }

  /** What such an entry adds to the total: 4096 bytes for every whole page, below 2 GiB or not. */
  lemma EntryCounts(arch: Arch, e: E820)
    requires e.base + PAGE_SIZE <= arch.WordMod() && e.base + e.length < arch.WordMod()
    ensures EntryBytes(arch, e) == if e.kind == 1 && FirstPage(e) < PastPage(e) then 4096 * (PastPage(e) - FirstPage(e)) else 0
  {
    AlignedDown(arch, e.base + PAGE_SIZE - 1);
    AlignedDown(arch, e.base + e.length);
  }

  lemma AlignedDown(arch: Arch, a: nat)
    requires a < arch.WordMod()
    ensures AlignDown(arch, a % WORD64) == 4096 * (a / 4096)
  {
  }

  /** On x86, RAM at 4 GiB frees low pages that are not RAM. */
  lemma HighRamFreesLow()
    ensures var e := E820(0x1_0000_0000, 0x4000_0000, E820_TYPE_USABLE);
            !Survives(X86, e) && Ram(X86, [e]) == Pages(0, 0x4_0000) && UsableRam([e]) == {}
  {
    hide AlignDown, RamStart, RamEnd;
    var e := E820(0x1_0000_0000, 0x4000_0000, E820_TYPE_USABLE);
    EntryBounds(X86, e);
    EntryPages(X86, e);
    OneUsable(e);
  }

  /** On x86, an entry of 50 bytes just below 4 GiB frees every page. */
  lemma CrumbFreesAll()
    ensures var e := E820(0xFFFF_FF9C, 50, E820_TYPE_USABLE);
            !Survives(X86, e) && Ram(X86, [e]) == AllPages() && UsableRam([e]) == {}
  {
    hide AlignDown, RamStart, RamEnd;
    var e := E820(0xFFFF_FF9C, 50, E820_TYPE_USABLE);
    EntryBounds(X86, e);
    EntryPages(X86, e);
    OneUsable(e);
  }

  /** On x86, RAM from 1 MiB up to 4 GiB frees nothing. */
  lemma FullRamFreesNone()
    ensures var e := E820(0x10_0000, 0xFFF0_0000, E820_TYPE_USABLE);
            !Survives(X86, e) && Ram(X86, [e]) == {} && UsableRam([e]) == Pages(0x100, MAX_PAGES)
  {
    hide AlignDown, RamStart, RamEnd;
    var e := E820(0x10_0000, 0xFFF0_0000, E820_TYPE_USABLE);
    EntryBounds(X86, e);
    EntryPages(X86, e);
    OneUsable(e);
  }

  lemma OneUsable(e: E820)
    requires e.kind == E820_TYPE_USABLE
    ensures UsableRam([e]) == Pages(FirstPage(e), PastPage(e))
  {
    forall p: nat ensures CoveredBy([e], p) <==> Within(p, FirstPage(e), PastPage(e)) {
      CoveredPages(e, p);
      assert Covered(e, p) ==> Covered([e][0], p);
    }
  }

  /** The first MiB, the kernel up to its end, and the bitmap, without truncation. */
  ghost function TrulyReserved(bssEnd: nat, bmStart: nat): set<nat>
  {
    Pages(0, 256)
    + Pages(16, (bssEnd + PAGE_SIZE - 1) / PAGE_SIZE)
    + Pages(bmStart / PAGE_SIZE, (bmStart + BITMAP_BYTES + PAGE_SIZE - 1) / PAGE_SIZE)
  }

  /** The rounding of the kernel's end must not wrap; that of the bitmap's may, beyond the pages covered. */
  lemma ReservedIff(arch: Arch, bssEnd: nat, bmStart: nat)
    requires bssEnd < arch.WordMod() && bmStart + BITMAP_BYTES < arch.WordMod()
    ensures Reserved(arch, bssEnd, bmStart) == TrulyReserved(bssEnd, bmStart)
            <==> bssEnd + PAGE_SIZE - 1 < arch.WordMod()
  {
    RoundUp(arch, bssEnd);
    RoundUp(arch, bmStart + BITMAP_BYTES);
    if bssEnd + PAGE_SIZE - 1 >= arch.WordMod() {
      var p: nat := if bmStart / PAGE_SIZE <= 300 then 400 else 256;
      assert p in Pages(16, (bssEnd + PAGE_SIZE - 1) / PAGE_SIZE);
      assert p !in Reserved(arch, bssEnd, bmStart);
    }
  }

  lemma RoundUp(arch: Arch, a: nat)
    requires a < arch.WordMod()
    ensures AlignPtr(arch, AlignPtr(arch, a)) / PAGE_SIZE
            == if a + PAGE_SIZE - 1 < arch.WordMod() then (a + PAGE_SIZE - 1) / PAGE_SIZE else 0
  {
  }

  /** The first MiB, everything up to the end of the kernel, and the bitmap. */
  ghost function Reserved(arch: Arch, bssEnd: nat, bmStart: nat): set<nat>
  {
    Pages(0, 256)
    + Pages(16, AlignPtr(arch, AlignPtr(arch, bssEnd)) / PAGE_SIZE)
    + Pages(bmStart / PAGE_SIZE, AlignPtr(arch, AlignPtr(arch, bmStart + BITMAP_BYTES)) / PAGE_SIZE)
  }

  lemma OneMiB(arch: Arch)
    ensures AlignPtr(arch, 0x100000) == 0x100000
  {
  }

  lemma RamNil(arch: Arch)
    ensures Ram(arch, []) == {}
  {
  }

  lemma EntryPages(arch: Arch, e: E820)
    ensures Ram(arch, [e]) == if e.kind == E820_TYPE_USABLE && RamEnd(arch, e) > RamStart(arch, e)
                              then Pages(RamStart(arch, e) / PAGE_SIZE, RamEnd(arch, e) / PAGE_SIZE) else {}
  {
    assert forall p: nat :: InMap(arch, [e], p) <==> InEntry(arch, [e][0], p);
  }

  lemma RamSnoc(arch: Arch, map_: seq<E820>, i: nat)
    requires i < |map_|
    ensures Ram(arch, map_[..i + 1]) == Ram(arch, map_[..i]) + Ram(arch, [map_[i]])
  {
    forall p: nat
      ensures InMap(arch, map_[..i + 1], p) <==> InMap(arch, map_[..i], p) || InMap(arch, [map_[i]], p)
    {
      assert [map_[i]][0] == map_[i] == map_[..i + 1][i];
      if InMap(arch, map_[..i], p) {
        var k :| 0 <= k < i && InEntry(arch, map_[..i][k], p);
        assert map_[..i + 1][k] == map_[..i][k];
      }
      if InMap(arch, map_[..i + 1], p) {
        var k :| 0 <= k < i + 1 && InEntry(arch, map_[..i + 1][k], p);
        if k < i { assert map_[..i][k] == map_[..i + 1][k]; }
      }
    }
  }

  // ----- freeing a run -----

  ghost function FreedPages(arch: Arch, phys: nat, n: nat): set<nat>
  {
    set i: nat | i < n :: FreedPage(arch, phys, i)
  }

  lemma FreedPagesSnoc(arch: Arch, phys: nat, n: nat)
    ensures FreedPages(arch, phys, n + 1) == FreedPages(arch, phys, n) + {FreedPage(arch, phys, n)}
  {
  }

  /** Freeing n pages from page s on, all covered by the bitmap, frees exactly those pages. */
  lemma FreedPagesExact(arch: Arch, s: nat, n: nat)
    requires s + n <= MAX_PAGES
    ensures FreedPages(arch, s * PAGE_SIZE, n) == Pages(s, s + n)
  {
    forall i: nat | i < n ensures FreedPage(arch, s * PAGE_SIZE, i) == s + i {
      assert i * PAGE_SIZE % WORD32 == i * PAGE_SIZE;
    }
    forall p | p in Pages(s, s + n) ensures p in FreedPages(arch, s * PAGE_SIZE, n) {
      assert FreedPage(arch, s * PAGE_SIZE, p - s) == p;
    }
  }

  /** pmm_free_n gives back exactly what pmm_alloc_n took. */
  lemma AllocFreeRestores(arch: Arch, used: set<nat>, s: nat, n: nat)
    requires ClearRun(used, s, n)
    ensures (used + Pages(s, s + n)) - FreedPages(arch, s * PAGE_SIZE, n) == used
  {
    FreedPagesExact(arch, s, n);
  }
}
