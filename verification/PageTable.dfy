/**
 Four-level page tables as values: the memory that holds them, the walk that
 translates a page number, and what each single write does to the translation.
 */
module PageTable {

  import opened Arithmetic
  import opened Pmm

  /** Physical memory as frames of 512 entries, of which the tables use some. */
  type Memory = seq<seq<nat>>

  const ENTRIES: nat := 512
  const PAGE_NUMBERS: nat := 0x10_0000_0000  // 2 to the 36

  const PTE_PRESENT: nat := 1
  const PTE_WRITABLE: nat := 2
  const PTE_HUGE: nat := 0x80

  predicate Present(e: nat) { e % 2 == 1 }
  predicate Huge(e: nat) { e / PTE_HUGE % 2 == 1 }
  /** The frame number in an entry: the entry without its low 12 bits. */
  function FrameOf(e: nat): nat { e / PAGE_SIZE }

  /** Index of page number n in the table of the given level, 4 being the root. */
  function Index4(n: nat): (i: nat) ensures i < ENTRIES { n / 0x800_0000 % ENTRIES }
  function Index3(n: nat): (i: nat) ensures i < ENTRIES { n / 0x4_0000 % ENTRIES }
  function Index2(n: nat): (i: nat) ensures i < ENTRIES { n / 0x200 % ENTRIES }
  function Index1(n: nat): (i: nat) ensures i < ENTRIES { n % ENTRIES }

  /** What an access may do: write, come from user mode, fetch instructions. */
  datatype Rights = Rights(write: bool, user: bool, exec: bool) {
    /** What two entries on the same path both allow. */
    function And(r: Rights): Rights { Rights(write && r.write, user && r.user, exec && r.exec) }
  }

  /** The rights an entry gives: bit 1 set, bit 2 set, bit 63 clear. */
  function RightsOf(e: nat): Rights
  {
    Rights(e / 2 % 2 == 1, e / 4 % 2 == 1, e / 0x8000_0000_0000_0000 % 2 == 0)
  }

  /** The rights every entry that links a table gives: no user access. */
  const TABLE_RIGHTS: Rights := Rights(true, false, true)

  /**
   Where a page number leads: nowhere, through a 4 KiB entry, or through a 2 MiB entry; with the low
   12 bits of the entry, and the rights all levels of the walk agree on.
   */
  datatype Target =
    | Unmapped
    | Small(frame: nat, low: nat, rights: Rights)
    | Large(frame: nat, low: nat, rights: Rights)

  /** Where an entry of a last-level table leads, below entries that link tables. */
  function Leaf(e: nat): Target
  {
    if Present(e) then Small(FrameOf(e), e % PAGE_SIZE, TABLE_RIGHTS.And(RightsOf(e))) else Unmapped
  }

  /** Where a present 2 MiB entry leads page number n, below entries that link tables. */
  function HugeLeaf(e: nat, n: nat): Target
  {
    Large(e / 0x20_0000 * ENTRIES + Index1(n), e % PAGE_SIZE, TABLE_RIGHTS.And(RightsOf(e)))
  }

  predicate Shaped(mem: Memory)
  {
    |mem| == MAX_PAGES && forall f :: 0 <= f < |mem| ==> |mem[f]| == ENTRIES
  }

  /** Entry i of the table in frame f; frames outside memory read as empty. */
  function At(mem: Memory, f: nat, i: nat): nat
    requires Shaped(mem) && i < ENTRIES
  {
    if f < |mem| then mem[f][i] else 0
  }

  /** The walk from a last-level table on, with the rights agreed on so far. */
  function WalkPt(mem: Memory, pt: nat, n: nat, r: Rights): Target
    requires Shaped(mem)
  {
    var e := At(mem, pt, Index1(n));
    if Present(e) then Small(FrameOf(e), e % PAGE_SIZE, r.And(RightsOf(e))) else Unmapped
  }

  function WalkPd(mem: Memory, pd: nat, n: nat, r: Rights): Target
    requires Shaped(mem)
  {
    var e := At(mem, pd, Index2(n));
    if !Present(e) then Unmapped
    else if Huge(e) then Large(e / 0x20_0000 * ENTRIES + Index1(n), e % PAGE_SIZE, r.And(RightsOf(e)))
    else WalkPt(mem, FrameOf(e), n, r.And(RightsOf(e)))
  }

  function WalkPdpt(mem: Memory, pdpt: nat, n: nat, r: Rights): Target
    requires Shaped(mem)
  {
    var e := At(mem, pdpt, Index3(n));
    if Present(e) then WalkPd(mem, FrameOf(e), n, r.And(RightsOf(e))) else Unmapped
  }

  /** The translation of page number n by the tables under root. */
  function Walk(mem: Memory, root: nat, n: nat): Target
    requires Shaped(mem)
  {
    var e := At(mem, root, Index4(n));
    if Present(e) then WalkPdpt(mem, FrameOf(e), n, RightsOf(e)) else Unmapped
  }

  /** How many tables the path of page number n lacks: the frames that mapping it takes. */
  function Missing(mem: Memory, root: nat, n: nat): (k: nat)
    requires Shaped(mem)
    ensures k <= 3
  {
    var e := At(mem, root, Index4(n));
    if !Present(e) then 3
    else
      var e3 := At(mem, FrameOf(e), Index3(n));
      if !Present(e3) then 2
      else if !Present(At(mem, FrameOf(e3), Index2(n))) then 1 else 0
  }

  lemma LargeLacksNothing(mem: Memory, root: nat, n: nat)
    requires Shaped(mem) && Walk(mem, root, n).Large?
    ensures Missing(mem, root, n) == 0
  {
    hide Index1, Index2, Index3, Index4, Present, Huge, FrameOf;
  }

  /** What the tables say about one frame that is a table: its level and its only parent slot. */
  datatype Slot = Slot(level: nat, parent: nat, idx: nat)

  type Tables = map<nat, Slot>

  /** An entry of a table of this level that leads to another table. */
  predicate Links(level: nat, e: nat)
  {
    level >= 2 && Present(e) && !(level == 2 && Huge(e))
  }

  /** Entry i of table f, if it links, links to a table that names (f, i) as its parent slot. */
  ghost predicate DownOk(mem: Memory, tabs: Tables, f: nat, i: nat)
    requires Shaped(mem) && f in tabs && i < ENTRIES
  {
    var e := At(mem, f, i);
    && (tabs[f].level >= 2 && !Present(e) ==> e == 0)
    && (Links(tabs[f].level, e) ==>
          FrameOf(e) in tabs && tabs[FrameOf(e)] == Slot(tabs[f].level - 1, f, i) && RightsOf(e) == TABLE_RIGHTS)
  }

  /** The parent slot of table c exists and links to c. */
  ghost predicate UpOk(mem: Memory, root: nat, tabs: Tables, c: nat)
    requires Shaped(mem) && c in tabs
  {
    var s := tabs[c];
    if c == root then s.level == 4
    else
      && 1 <= s.level <= 3 && s.idx < ENTRIES && s.parent in tabs
      && tabs[s.parent].level == s.level + 1
      && Links(s.level + 1, At(mem, s.parent, s.idx)) && FrameOf(At(mem, s.parent, s.idx)) == c
  }

  /**
   The tables form a tree: every linking entry leads to a table of the next level whose one
   parent slot it is, all with the same rights, and every table but the root is linked from its
   parent slot.
   */
  ghost predicate Tree(mem: Memory, root: nat, tabs: Tables)
  {
    && Shaped(mem)
    && root in tabs
    && (forall f :: f in tabs ==> 1 <= f < MAX_PAGES)
    && (forall c :: c in tabs ==> UpOk(mem, root, tabs, c))
    && (forall f, i: nat :: f in tabs && i < ENTRIES ==> DownOk(mem, tabs, f, i))
  }

  /** A table frame has exactly one parent slot. */
  lemma OneParent(mem: Memory, root: nat, tabs: Tables, f: nat, i: nat, g: nat, j: nat)
    requires Tree(mem, root, tabs)
    requires f in tabs && g in tabs && i < ENTRIES && j < ENTRIES
    requires Links(tabs[f].level, At(mem, f, i)) && Links(tabs[g].level, At(mem, g, j))
    requires FrameOf(At(mem, f, i)) == FrameOf(At(mem, g, j))
    ensures f == g && i == j
  {
    assert DownOk(mem, tabs, f, i) && DownOk(mem, tabs, g, j);
  }

  function Put(mem: Memory, f: nat, i: nat, e: nat): (r: Memory)
    requires Shaped(mem) && f < MAX_PAGES && i < ENTRIES
    ensures Shaped(r)
    ensures forall g, j: nat :: j < ENTRIES ==> At(r, g, j) == if g == f && j == i then e else At(mem, g, j)
  {
    var row: seq<nat> := mem[f][i := e];
    mem[f := row]
  }

  function Zeros(): (z: seq<nat>)
    ensures |z| == ENTRIES && forall i :: 0 <= i < ENTRIES ==> z[i] == 0
  {
    seq(ENTRIES, i => 0)
  }

  function ZeroFrame(mem: Memory, f: nat): (r: Memory)
    requires Shaped(mem) && f < MAX_PAGES
    ensures Shaped(r)
    ensures forall g, j: nat :: j < ENTRIES ==> At(r, g, j) == if g == f then 0 else At(mem, g, j)
  {
    mem[f := Zeros()]
  }

  /** A present, writable entry for the table in frame p. */
  function TableEntry(p: nat): (e: nat)
    ensures Present(e) && !Huge(e) && FrameOf(e) == p
    ensures p < MAX_PAGES ==> RightsOf(e) == TABLE_RIGHTS
  {
    TableBits(p);
    p * PAGE_SIZE + PTE_PRESENT + PTE_WRITABLE
  }

  lemma TableBits(p: nat)
    ensures var e := p * 4096 + 3;
            && e % 2 == 1 && e / 2 % 2 == 1 && e / 4 % 2 == 0 && e / 0x80 % 2 == 0 && e / 4096 == p
            && (p < 0x8_0000 ==> e / 0x8000_0000_0000_0000 == 0)
  {
    TableBit0(p);
    TableBit1(p);
    TableBit2(p);
    TableBit7(p);
    TableBit63(p);
  }

  lemma TableBit0(p: nat) ensures (p * 4096 + 3) % 2 == 1 && (p * 4096 + 3) / 4096 == p { By2(p * 2048 + 1, 1); By4096(p, 3); }
  lemma TableBit1(p: nat) ensures (p * 4096 + 3) / 2 % 2 == 1 { By2(p * 2048 + 1, 1); By2(p * 1024, 1); }
  lemma TableBit2(p: nat) ensures (p * 4096 + 3) / 4 % 2 == 0 { By4(p * 1024, 3); By2(p * 512, 0); }
  lemma TableBit7(p: nat) ensures (p * 4096 + 3) / 0x80 % 2 == 0 { By128(p * 32, 3); By2(p * 16, 0); }
  lemma TableBit63(p: nat) ensures p < 0x8_0000 ==> (p * 4096 + 3) / 0x8000_0000_0000_0000 == 0 {}

  /** The tree after an empty slot of a table gets a fresh zeroed table. */
  function Grow(mem: Memory, f: nat, i: nat, p: nat): (r: Memory)
    requires Shaped(mem) && f < MAX_PAGES && i < ENTRIES && p < MAX_PAGES
    ensures Shaped(r)
  {
    Put(ZeroFrame(mem, p), f, i, TableEntry(p))
  }

  lemma GrowTree(mem: Memory, root: nat, tabs: Tables, f: nat, i: nat, p: nat)
    requires Tree(mem, root, tabs)
    requires f in tabs && tabs[f].level >= 2 && i < ENTRIES && !Present(At(mem, f, i))
    requires p !in tabs && 1 <= p < MAX_PAGES
    ensures Tree(Grow(mem, f, i, p), root, tabs[p := Slot(tabs[f].level - 1, f, i)])
  {
    var r := Grow(mem, f, i, p);
    var ts := tabs[p := Slot(tabs[f].level - 1, f, i)];
    assert UpOk(mem, root, tabs, f);
    forall c | c in ts ensures UpOk(r, root, ts, c) {
      if c != p { assert UpOk(mem, root, tabs, c); }
    }
    forall g, j: nat | g in ts && j < ENTRIES ensures DownOk(r, ts, g, j) {
      if g != p && !(g == f && j == i) {
        assert DownOk(mem, tabs, g, j);
      }
    }
  }

  // ----- what each write does to the translation -----

  /** Linking in a fresh zeroed table changes no translation. */
  lemma GrowWalk(mem: Memory, root: nat, tabs: Tables, f: nat, i: nat, p: nat, n: nat)
    requires Tree(mem, root, tabs)
    requires f in tabs && tabs[f].level >= 2 && i < ENTRIES && !Present(At(mem, f, i))
    requires p !in tabs && 1 <= p < MAX_PAGES
    ensures Walk(Grow(mem, f, i, p), root, n) == Walk(mem, root, n)
  {
    hide Index1, Index2, Index3, Index4, FrameOf, Huge, TableEntry, Put, ZeroFrame, RightsOf;
    var r := Grow(mem, f, i, p);
    ZeroNotPresent();
    assert UpOk(mem, root, tabs, root);
    var e4 := At(mem, root, Index4(n));
    assert DownOk(mem, tabs, root, Index4(n));
    if Present(e4) {
      var pdpt := FrameOf(e4);
      var e3 := At(mem, pdpt, Index3(n));
      assert DownOk(mem, tabs, pdpt, Index3(n));
      if Present(e3) {
        var pd := FrameOf(e3);
        assert DownOk(mem, tabs, pd, Index2(n));
      }
    }
  }

  lemma ZeroNotPresent()
    ensures !Present(0) && !Huge(0)
  {
  }

  /** Table f is the one that the walk of n meets at its level. */
  ghost predicate OnPath(root: nat, tabs: Tables, f: nat, n: nat)
    requires f in tabs
  {
    && var s := tabs[f];
    && (s.level == 4 ==> f == root)
    && (s.level == 3 ==> s.parent == root && s.idx == Index4(n))
    && (s.level == 2 ==> PdOnPath(root, tabs, f, n))
    && (s.level == 1 ==> s.parent in tabs && s.idx == Index2(n) && PdOnPath(root, tabs, s.parent, n))
  }

  ghost predicate PdOnPath(root: nat, tabs: Tables, pd: nat, n: nat)
    requires pd in tabs
  {
    && var s := tabs[pd];
    && s.level == 2 && s.parent in tabs && s.idx == Index3(n)
    && var t := tabs[s.parent];
    && t.level == 3 && t.parent == root && t.idx == Index4(n)
  }

  lemma PutSmallTree(mem: Memory, root: nat, tabs: Tables, f: nat, i: nat, e: nat)
    requires Tree(mem, root, tabs) && f in tabs && tabs[f].level == 1 && i < ENTRIES
    ensures Tree(Put(mem, f, i, e), root, tabs)
  {
    hide FrameOf, Huge, Put, RightsOf;
    var r := Put(mem, f, i, e);
    forall c | c in tabs ensures UpOk(r, root, tabs, c) {
      assert UpOk(mem, root, tabs, c);
    }
    forall g, j: nat | g in tabs && j < ENTRIES ensures DownOk(r, tabs, g, j) {
      assert DownOk(mem, tabs, g, j);
    }
  }

  /** A write into a last-level table changes the translation of one page number. */
  lemma PutSmallWalk(mem: Memory, root: nat, tabs: Tables, f: nat, i: nat, e: nat, n: nat)
    requires Tree(mem, root, tabs) && f in tabs && tabs[f].level == 1 && i < ENTRIES
    ensures Walk(Put(mem, f, i, e), root, n) ==
            if OnPath(root, tabs, f, n) && Index1(n) == i
            then Leaf(e)
            else Walk(mem, root, n)
  {
    hide Index1, Index2, Index3, Index4, FrameOf, Huge, Put, Present, RightsOf;
    var r := Put(mem, f, i, e);
    PathUp(mem, root, tabs, f);
    var e4 := At(mem, root, Index4(n));
    assert DownOk(mem, tabs, root, Index4(n));
    if Present(e4) {
      var pdpt := FrameOf(e4);
      var e3 := At(mem, pdpt, Index3(n));
      assert DownOk(mem, tabs, pdpt, Index3(n));
      if Present(e3) {
        var pd := FrameOf(e3);
        assert DownOk(mem, tabs, pd, Index2(n));
      }
    }
  }

  /** The parent slots above a table link down to it. */
  lemma PathUp(mem: Memory, root: nat, tabs: Tables, f: nat)
    requires Tree(mem, root, tabs) && f in tabs
    ensures UpOk(mem, root, tabs, f) && UpOk(mem, root, tabs, root)
    ensures f != root ==> UpOk(mem, root, tabs, tabs[f].parent)
    ensures f != root && tabs[f].parent != root ==>
              tabs[tabs[f].parent].parent in tabs && UpOk(mem, root, tabs, tabs[tabs[f].parent].parent)
  {
    assert UpOk(mem, root, tabs, f);
    if f != root { assert UpOk(mem, root, tabs, tabs[f].parent); }
  }

  lemma PutHugeTree(mem: Memory, root: nat, tabs: Tables, f: nat, i: nat, e: nat)
    requires Tree(mem, root, tabs) && f in tabs && tabs[f].level == 2 && i < ENTRIES
    requires !Present(At(mem, f, i)) && Present(e) && Huge(e)
    ensures Tree(Put(mem, f, i, e), root, tabs)
  {
    hide FrameOf, Huge, Put, Present, RightsOf;
    var r := Put(mem, f, i, e);
    forall c | c in tabs ensures UpOk(r, root, tabs, c) {
      assert UpOk(mem, root, tabs, c);
    }
    forall g, j: nat | g in tabs && j < ENTRIES ensures DownOk(r, tabs, g, j) {
      assert DownOk(mem, tabs, g, j);
    }
  }

  /** A 2 MiB entry in an empty slot of a level-2 table maps the 512 page numbers below it. */
  lemma PutHugeWalk(mem: Memory, root: nat, tabs: Tables, f: nat, i: nat, e: nat, n: nat)
    requires Tree(mem, root, tabs) && f in tabs && tabs[f].level == 2 && i < ENTRIES
    requires !Present(At(mem, f, i)) && Present(e) && Huge(e)
    ensures Walk(Put(mem, f, i, e), root, n) ==
            if OnPath(root, tabs, f, n) && Index2(n) == i
            then HugeLeaf(e, n)
            else Walk(mem, root, n)
  {
    hide Index1, Index2, Index3, Index4, FrameOf, Huge, Put, Present, RightsOf;
    var r := Put(mem, f, i, e);
    PathUp(mem, root, tabs, f);
    var e4 := At(mem, root, Index4(n));
    assert DownOk(mem, tabs, root, Index4(n));
    if Present(e4) {
      var pdpt := FrameOf(e4);
      var e3 := At(mem, pdpt, Index3(n));
      assert DownOk(mem, tabs, pdpt, Index3(n));
      if Present(e3) {
        var pd := FrameOf(e3);
        assert DownOk(mem, tabs, pd, Index2(n));
      }
    }
  }

  /** A page number below 2 to the 36 is its four indices. */
  lemma PageNumber(n: nat)
    requires n < PAGE_NUMBERS
    ensures n == ((Index4(n) * ENTRIES + Index3(n)) * ENTRIES + Index2(n)) * ENTRIES + Index1(n)
  {
    assert n / 0x200 / 0x200 == n / 0x4_0000;
    assert n / 0x4_0000 / 0x200 == n / 0x800_0000;
  }

  /** Page numbers with the same indices are the same. */
  lemma SameIndices(n: nat, m: nat)
    requires n < PAGE_NUMBERS && m < PAGE_NUMBERS
    requires Index4(n) == Index4(m) && Index3(n) == Index3(m) && Index2(n) == Index2(m) && Index1(n) == Index1(m)
    ensures n == m
  {
    PageNumber(n);
    PageNumber(m);
  }

  /** No page is ever open to user mode, because no entry that links a table is. */
  lemma NeverUser(mem: Memory, root: nat, tabs: Tables, n: nat)
    requires Tree(mem, root, tabs)
    ensures Walk(mem, root, n).Unmapped? || !Walk(mem, root, n).rights.user
  {
    hide Index1, Index2, Index3, Index4, FrameOf, Huge, Present, RightsOf;
    assert UpOk(mem, root, tabs, root);
    assert DownOk(mem, tabs, root, Index4(n));
  }

  // ----- bitwise or on numbers -----

  /** The number whose binary digits are set where a digit of a or of b is. */
  function Or(a: nat, b: nat): nat
  {
    if a == 0 && b == 0 then 0
    else 2 * Or(a / 2, b / 2) + (if a % 2 == 1 || b % 2 == 1 then 1 else 0)
  }

  /** Every binary digit of b is set in a. */
  predicate Covers(a: nat, b: nat)
    decreases a + b
  {
    b == 0 || ((b % 2 == 1 ==> a % 2 == 1) && Covers(a / 2, b / 2))
  }

  lemma OrHalf(a: nat, b: nat)
    ensures Or(a, b) / 2 == Or(a / 2, b / 2)
    ensures Or(a, b) % 2 == 1 <==> a % 2 == 1 || b % 2 == 1
  {
  }

  lemma OrDiv8(a: nat, b: nat)
    ensures Or(a, b) / 8 == Or(a / 8, b / 8)
  {
    hide Or;
    OrHalf(a, b);
    OrHalf(a / 2, b / 2);
    OrHalf(a / 4, b / 4);
  }

  lemma Eighths(a: nat)
    ensures a / 8 / 8 == a / 64 && a / 64 / 8 == a / 512 && a / 512 / 8 == a / 4096
  {
  }

  lemma OrDiv4096(a: nat, b: nat)
    ensures Or(a, b) / 4096 == Or(a / 4096, b / 4096)
  {
    hide Or;
    Eighths(a);
    Eighths(b);
    Eighths(Or(a, b));
    OrDiv8(a, b);
    OrDiv8(a / 8, b / 8);
    OrDiv8(a / 64, b / 64);
    OrDiv8(a / 512, b / 512);
  }

  lemma {:induction false} OrZero(a: nat)
    ensures Or(a, 0) == a
  {
    if a > 0 { OrZero(a / 2); }
  }

  lemma {:induction false} OrCovers(a: nat, b: nat)
    ensures Or(a, b) == a <==> Covers(a, b)
    decreases a + b
  {
    if b == 0 {
      OrZero(a);
    } else {
      OrCovers(a / 2, b / 2);
    }
  }

  lemma {:induction false} CoversAtMost(a: nat, b: nat)
    ensures Covers(a, b) ==> b <= a
    decreases a + b
  {
    if b > 0 && Covers(a, b) { CoversAtMost(a / 2, b / 2); }
  }

  /** The bits of the parts below and above bit 3 are or-ed apart from each other. */
  lemma OrSplit8(a: nat, b: nat, x: nat, y: nat)
    requires x < 8 && y < 8
    ensures Or(8 * a + x, 8 * b + y) == 8 * Or(a, b) + Or(x, y) && Or(x, y) < 8
  {
    hide Or;
    OrBit(4 * a + x / 2, 4 * b + y / 2, x % 2, y % 2);
    OrBit(2 * a + x / 4, 2 * b + y / 4, x / 2 % 2, y / 2 % 2);
    OrBit(a, b, x / 4, y / 4);
    OrBit(x / 2, y / 2, x % 2, y % 2);
    OrBit(x / 4, y / 4, x / 2 % 2, y / 2 % 2);
    OrBit(0, 0, x / 4, y / 4);
    OrZero(0);
  }

  lemma OrBit(a: nat, b: nat, x: nat, y: nat)
    requires x < 2 && y < 2
    ensures Or(2 * a + x, 2 * b + y) == 2 * Or(a, b) + (if x == 1 || y == 1 then 1 else 0)
  {
    assert (2 * a + x) / 2 == a && (2 * b + y) / 2 == b;
  }

  lemma OrSplit64(a: nat, b: nat, x: nat, y: nat)
    requires x < 64 && y < 64
    ensures Or(64 * a + x, 64 * b + y) == 64 * Or(a, b) + Or(x, y) && Or(x, y) < 64
  {
    hide Or;
    OrSplit8(8 * a + x / 8, 8 * b + y / 8, x % 8, y % 8);
    OrSplit8(a, b, x / 8, y / 8);
    OrSplit8(x / 8, y / 8, x % 8, y % 8);
  }

  lemma OrSplit4096(a: nat, b: nat, x: nat, y: nat)
    requires x < 4096 && y < 4096
    ensures Or(4096 * a + x, 4096 * b + y) == 4096 * Or(a, b) + Or(x, y) && Or(x, y) < 4096
  {
    hide Or;
    OrSplit64(64 * a + x / 64, 64 * b + y / 64, x % 64, y % 64);
    OrSplit64(a, b, x / 64, y / 64);
    OrSplit64(x / 64, y / 64, x % 64, y % 64);
  }

  lemma {:induction false} ZeroOr(b: nat)
    ensures Or(0, b) == b
  {
    if b > 0 { ZeroOr(b / 2); }
  }

  /** The low 12 bits of the stored entry: those of the flags, and bit 0. */
  lemma MapEntryLow(phys: nat, flags: nat)
    ensures MapEntry(phys, flags) % PAGE_SIZE == Or(flags % PAGE_SIZE, 1)
    ensures MapEntry(phys, flags) / 2 % 2 == flags / 2 % 2
  {
    hide Or;
    var f, g, x := phys / 4096, flags / 4096, flags % 4096;
    OrSplit4096(f, g, 0, x);
    ZeroOr(x);
    OrSplit4096(Or(f, g), 0, x, 1);
    WholePage(phys);
    LowPart(Or(Or(f, g), 0), Or(x, 1));
    OrHalf(x, 1);
    OrZero(x / 2);
    SecondBit(flags);
    SecondBit(MapEntry(phys, flags));
  }

  lemma WholePage(phys: nat)
    ensures phys - phys % 4096 == 4096 * (phys / 4096)
  {
  }

  lemma LowPart(h: nat, x: nat)
    requires x < 4096
    ensures (4096 * h + x) % 4096 == x
  {
  }

  /** Bit 1 is among the low 12 bits. */
  lemma SecondBit(x: nat)
    ensures x / 2 % 2 == x % 4096 / 2 % 2
  {
    var q, r := x / 4096, x % 4096;
    assert x / 2 == q * 2048 + r / 2;
    EvenAway(r / 2, q * 1024);
  }

  lemma EvenAway(x: nat, m: nat)
    ensures (m * 2 + x) % 2 == x % 2
  {
    By2(m + x / 2, x % 2);
  }

  /** Where vmm_map leads a page: the frame with the flag bits above bit 11, the other flags, and their rights. */
  function MapTarget(phys: nat, flags: nat): Target
  {
    var frame := Or(phys / PAGE_SIZE, flags / PAGE_SIZE);
    Small(frame, Or(flags % PAGE_SIZE, 1), Rights(flags / 2 % 2 == 1, false, frame / 0x8_0000_0000_0000 % 2 == 0))
  }

  lemma MapEntryLeads(phys: nat, flags: nat)
    ensures Leaf(MapEntry(phys, flags)) == MapTarget(phys, flags)
  {
    hide Or, MapEntry;
    MapEntryFrame(phys, flags);
    MapEntryLow(phys, flags);
    TopBit(MapEntry(phys, flags));
  }

  lemma TopBit(e: nat)
    ensures e / 0x8000_0000_0000_0000 == e / PAGE_SIZE / 0x8_0000_0000_0000
  {
  }

  /** The entry vmm_map stores: (phys & ~0xFFF) | flags | PRESENT. */
  function MapEntry(phys: nat, flags: nat): nat
  {
    Or(Or(phys - phys % PAGE_SIZE, flags), PTE_PRESENT)
  }

  /**
   The entry is present and its frame is the given frame with the flag bits above bit 11
   or-ed in, so it is the given frame exactly when those bits are already set in it.
   */
  lemma MapEntryFrame(phys: nat, flags: nat)
    ensures Present(MapEntry(phys, flags))
    ensures FrameOf(MapEntry(phys, flags)) == Or(phys / PAGE_SIZE, flags / PAGE_SIZE)
    ensures FrameOf(MapEntry(phys, flags)) == phys / PAGE_SIZE <==> Covers(phys / PAGE_SIZE, flags / PAGE_SIZE)
    ensures flags < PAGE_SIZE ==> FrameOf(MapEntry(phys, flags)) == phys / PAGE_SIZE
  {
    hide Or;
    var base := phys - phys % PAGE_SIZE;
    SameFrame(phys);
    OrHalf(Or(base, flags), PTE_PRESENT);
    MapEntryOr(base, flags);
    OrCovers(phys / PAGE_SIZE, flags / PAGE_SIZE);
    OrZero(phys / PAGE_SIZE);
  }

  lemma SameFrame(phys: nat)
    ensures (phys - phys % PAGE_SIZE) / PAGE_SIZE == phys / PAGE_SIZE
  {
  }

  lemma MapEntryOr(base: nat, flags: nat)
    ensures Or(Or(base, flags), PTE_PRESENT) / 4096 == Or(base / 4096, flags / 4096)
  {
    hide Or;
    OrDiv4096(Or(base, flags), PTE_PRESENT);
    OrDiv4096(base, flags);
    OrZero(Or(base / 4096, flags / 4096));
  }
}
