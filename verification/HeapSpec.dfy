/**
 The kernel heap as a list of blocks, without the memory that stores it.

 A block is a header of fixed size followed by its payload. The list is what a
 walk over the next pointers from the head visits. Everything said here about
 runs is about this list; module Heap ties it to the bytes.
 */
module HeapSpec {

  import opened Bytes
  import opened Machine

  // ----- the layout of a block header -----

  function NextOffset(arch: Arch): nat { if arch.X86? then 12 else 16 }
  function PrevOffset(arch: Arch): nat { NextOffset(arch) + arch.PtrSize() }
  function HeaderSize(arch: Arch): nat { NextOffset(arch) + 2 * arch.PtrSize() }

  /** The layout of the header struct: 20 bytes with 4-byte pointers, 32 with 8-byte pointers. */
  lemma HeaderLayout()
    ensures HeaderSize(X86) == 20 && NextOffset(X86) == 12 && PrevOffset(X86) == 16
    ensures HeaderSize(X64) == 32 && NextOffset(X64) == 16 && PrevOffset(X64) == 24
  {
  }

  const MIN_SPLIT: nat := 32

  datatype Block = Block(addr: nat, size: nat, used: bool)

  /** First address after the payload. */
  function End(arch: Arch, b: Block): nat
  {
    b.addr + HeaderSize(arch) + b.size
  }

  /** The region given to heap_init. */
  datatype Region = Region(start: nat, total: nat) {
    function Limit(): nat { start + total }
  }

  /**
   Where heap_init may be pointed: room for one header, a block size that fits
   its 32-bit field, addresses that fit a pointer, and a start far enough from
   address 0 that no size computed from a block size wraps.
   */
  predicate RegionOk(arch: Arch, g: Region)
  {
    && HeaderSize(arch) <= g.total
    && g.total - HeaderSize(arch) < WORD32
    && HeaderSize(arch) + MIN_SPLIT <= g.start
    && g.Limit() <= arch.WordMod()
  }

  // ----- the invariant -----

  /** Block i + 1 starts where block i ends. */
  predicate Adjoins(arch: Arch, bs: seq<Block>, i: nat)
    requires i + 1 < |bs|
  {
    bs[i + 1].addr == End(arch, bs[i])
  }

  predicate OneUsed(bs: seq<Block>, i: nat)
    requires i + 1 < |bs|
  {
    bs[i].used || bs[i + 1].used
  }

  /** The blocks cover the region exactly, one after the other. */
  ghost predicate Tiles(arch: Arch, g: Region, bs: seq<Block>)
  {
    && |bs| > 0
    && bs[0].addr == g.start
    && (forall i: nat :: i < |bs| - 1 ==> Adjoins(arch, bs, i))
    && End(arch, bs[|bs| - 1]) == g.Limit()
  }

  ghost predicate NoTwoFree(bs: seq<Block>)
  {
    forall i: nat :: i < |bs| - 1 ==> OneUsed(bs, i)
  }

  /** Blocks appear in address order and do not overlap. */
  lemma {:induction false} TilesOrdered(arch: Arch, g: Region, bs: seq<Block>, i: nat, j: nat)
    requires Tiles(arch, g, bs)
    requires i < j < |bs|
    ensures End(arch, bs[i]) <= bs[j].addr
    decreases j
  {
    if i < j - 1 {
      TilesOrdered(arch, g, bs, i, j - 1);
      assert Adjoins(arch, bs, j - 1);
    } else {
      assert Adjoins(arch, bs, i);
    }
  }

  lemma TilesOrderedAll(arch: Arch, g: Region, bs: seq<Block>)
    requires Tiles(arch, g, bs)
    ensures forall i, j :: 0 <= i < j < |bs| ==> End(arch, bs[i]) <= bs[j].addr
    ensures forall i :: 0 <= i < |bs| ==> g.start <= bs[i].addr && End(arch, bs[i]) <= g.Limit()
  {
    forall i, j | 0 <= i < j < |bs| ensures End(arch, bs[i]) <= bs[j].addr {
      TilesOrdered(arch, g, bs, i, j);
    }
    forall i | 0 <= i < |bs| ensures g.start <= bs[i].addr && End(arch, bs[i]) <= g.Limit() {
      if i > 0 { assert End(arch, bs[0]) <= bs[i].addr; }
      if i < |bs| - 1 { assert End(arch, bs[i]) <= bs[|bs| - 1].addr; }
    }
  }

  // ----- the operations -----

  /** ALIGN_UP(n, 8) in size_t arithmetic: the sum wraps. */
  function AlignUp8(arch: Arch, n: nat): (r: nat)
    ensures r % 8 == 0
    ensures n + 7 < arch.WordMod() ==> n <= r < n + 8
    ensures n < arch.WordMod() <= n + 7 ==> r == 0
  {
    var s := arch.Wrap(n + 7);
    s - s % 8
  }

  predicate Fits(b: Block, n: nat) { !b.used && b.size >= n }

  /** Index of the first free block that holds n bytes, or the number of blocks. */
  function FirstFit(bs: seq<Block>, n: nat): (i: nat)
    ensures i <= |bs|
    ensures i < |bs| ==> Fits(bs[i], n)
    ensures forall j :: 0 <= j < i ==> !Fits(bs[j], n)
  {
    if bs == [] then 0
    else if Fits(bs[0], n) then 0
    else
      var k := FirstFit(bs[1..], n);
      assert forall j :: 1 <= j < k + 1 ==> bs[j] == bs[1..][j - 1];
      k + 1
  }

  predicate Splits(arch: Arch, b: Block, n: nat)
  {
    b.size >= n + HeaderSize(arch) + MIN_SPLIT
  }

  /** A free block after taking n bytes: the rest becomes a free block when it is large enough. */
  function Carve(arch: Arch, b: Block, n: nat): (y: seq<Block>)
    requires Fits(b, n)
    ensures 1 <= |y| <= 2 && y[0].used && y[0].addr == b.addr && n <= y[0].size
    ensures y[0].size - n < HeaderSize(arch) + MIN_SPLIT
  {
    if Splits(arch, b, n) then
      [Block(b.addr, n, true), Block(b.addr + HeaderSize(arch) + n, b.size - n - HeaderSize(arch), false)]
    else
      [b.(used := true)]
  }

  /** The same cut before the first part is marked used. */
  function Cut(arch: Arch, b: Block, n: nat): (y: seq<Block>)
    requires Fits(b, n)
    ensures |y| == |Carve(arch, b, n)| && y[0 := y[0].(used := true)] == Carve(arch, b, n) && !y[0].used
  {
    if Splits(arch, b, n) then
      [Block(b.addr, n, false), Block(b.addr + HeaderSize(arch) + n, b.size - n - HeaderSize(arch), false)]
    else
      [b]
  }

  function AllocAt(arch: Arch, bs: seq<Block>, i: nat, n: nat): (t: seq<Block>)
    requires i < |bs| && Fits(bs[i], n)
  {
    bs[..i] + Carve(arch, bs[i], n) + bs[i + 1..]
  }

  /** First and last block swallowed when block i is freed. */
  function MergeLo(bs: seq<Block>, i: nat): (l: nat)
    requires i < |bs|
    ensures l <= i <= l + 1
  {
    if i > 0 && !bs[i - 1].used then i - 1 else i
  }

  function MergeHi(bs: seq<Block>, i: nat): (r: nat)
    requires i < |bs|
    ensures i <= r < |bs| && r <= i + 1
  {
    if i + 1 < |bs| && !bs[i + 1].used then i + 1 else i
  }

  /** Blocks l..r replaced by one free block over the same addresses. */
  function Merge(arch: Arch, bs: seq<Block>, l: nat, r: nat): seq<Block>
    requires l <= r < |bs|
    requires bs[l].addr + HeaderSize(arch) <= End(arch, bs[r])
  {
    bs[..l] + [Block(bs[l].addr, End(arch, bs[r]) - bs[l].addr - HeaderSize(arch), false)] + bs[r + 1..]
  }

  function FreeAt(arch: Arch, bs: seq<Block>, i: nat): seq<Block>
    requires i < |bs|
    requires bs[MergeLo(bs, i)].addr + HeaderSize(arch) <= End(arch, bs[MergeHi(bs, i)])
  {
    Merge(arch, bs, MergeLo(bs, i), MergeHi(bs, i))
  }

  lemma MergeFits(arch: Arch, g: Region, bs: seq<Block>, l: nat, r: nat)
    requires Tiles(arch, g, bs) && l <= r < |bs|
    ensures bs[l].addr + HeaderSize(arch) <= End(arch, bs[r])
  {
    if l < r { TilesOrdered(arch, g, bs, l, r); }
  }

  // ----- each operation keeps the invariant -----

  lemma TilesMark(arch: Arch, g: Region, bs: seq<Block>, i: nat, used: bool)
    requires Tiles(arch, g, bs) && i < |bs|
    ensures Tiles(arch, g, bs[i := bs[i].(used := used)])
  {
    var t := bs[i := bs[i].(used := used)];
    forall j: nat | j < |t| - 1 ensures Adjoins(arch, t, j) {
      assert Adjoins(arch, bs, j);
    }
  }

  lemma CutTiles(arch: Arch, g: Region, bs: seq<Block>, i: nat, n: nat)
    requires Tiles(arch, g, bs) && NoTwoFree(bs)
    requires i < |bs| && Fits(bs[i], n)
    ensures var t := bs[..i] + Cut(arch, bs[i], n) + bs[i + 1..];
            Tiles(arch, g, t) && t[i := t[i].(used := true)] == AllocAt(arch, bs, i, n)
  {
    var t := bs[..i] + Cut(arch, bs[i], n) + bs[i + 1..];
    var u := AllocAt(arch, bs, i, n);
    AllocKeeps(arch, g, bs, i, n);
    TilesMark(arch, g, u, i, false);
    assert t == u[i := u[i].(used := false)];
  }

  /** Merging to the right and then to the left is one merge. */
  lemma MergeMerge(arch: Arch, g: Region, bs: seq<Block>, i: nat, r: nat)
    requires Tiles(arch, g, bs) && 0 < i <= r < |bs|
    requires bs[i].addr + HeaderSize(arch) <= End(arch, bs[r])
    requires bs[i - 1].addr + HeaderSize(arch) <= End(arch, bs[r])
    ensures var t := Merge(arch, bs, i, r);
            && t[i - 1].addr + HeaderSize(arch) <= End(arch, t[i])
            && Merge(arch, t, i - 1, i) == Merge(arch, bs, i - 1, r)
  {
    var t := Merge(arch, bs, i, r);
    assert t[..i - 1] == bs[..i - 1];
    assert t[i + 1..] == bs[r + 1..];
  }

  lemma AllocKeeps(arch: Arch, g: Region, bs: seq<Block>, i: nat, n: nat)
    requires Tiles(arch, g, bs) && NoTwoFree(bs)
    requires i < |bs| && Fits(bs[i], n)
    ensures Tiles(arch, g, AllocAt(arch, bs, i, n)) && NoTwoFree(AllocAt(arch, bs, i, n))
  {
    var t := AllocAt(arch, bs, i, n);
    var d := |Carve(arch, bs[i], n)| - 1;
    forall j: nat | j < |t| - 1
      ensures Adjoins(arch, t, j) && OneUsed(t, j)
    {
      if j >= i + d {
        assert t[j + 1] == bs[j + 1 - d];
        if j > i + d { assert t[j] == bs[j - d]; }
        assert Adjoins(arch, bs, j - d) && OneUsed(bs, j - d);
      } else if j < i {
        assert Adjoins(arch, bs, j) && OneUsed(bs, j);
      }
    }
  }

  lemma TilesAdjoin(arch: Arch, g: Region, bs: seq<Block>, i: nat)
    requires Tiles(arch, g, bs) && i + 1 < |bs|
    ensures Adjoins(arch, bs, i)
  {
  }

  lemma MergeShape(arch: Arch, bs: seq<Block>, l: nat)
    requires l + 1 < |bs| && bs[l].addr + HeaderSize(arch) <= End(arch, bs[l + 1])
    ensures var t := Merge(arch, bs, l, l + 1);
            && |t| == |bs| - 1 && t[..l] == bs[..l] && t[l + 1..] == bs[l + 2..]
            && t[l] == Block(bs[l].addr, End(arch, bs[l + 1]) - bs[l].addr - HeaderSize(arch), false)
            && (l + 2 < |bs| ==> t[l + 1] == bs[l + 2])
  {
  }

  lemma MergeKeeps(arch: Arch, g: Region, bs: seq<Block>, l: nat, r: nat)
    requires Tiles(arch, g, bs) && l <= r < |bs|
    requires bs[l].addr + HeaderSize(arch) <= End(arch, bs[r])
    ensures Tiles(arch, g, Merge(arch, bs, l, r))
  {
    var t := Merge(arch, bs, l, r);
    forall j: nat | j < |t| - 1
      ensures Adjoins(arch, t, j)
    {
      if j >= l {
        var k := j + r - l;
        assert t[j + 1] == bs[k + 1];
        if j > l { assert t[j] == bs[k]; }
        assert Adjoins(arch, bs, k);
      } else {
        assert Adjoins(arch, bs, j);
      }
    }
    if r < |bs| - 1 { assert t[|t| - 1] == bs[|bs| - 1]; }
  }

  lemma FreeKeeps(arch: Arch, g: Region, bs: seq<Block>, i: nat)
    requires Tiles(arch, g, bs) && NoTwoFree(bs)
    requires i < |bs| && bs[i].used
    ensures bs[MergeLo(bs, i)].addr + HeaderSize(arch) <= End(arch, bs[MergeHi(bs, i)])
    ensures Tiles(arch, g, FreeAt(arch, bs, i)) && NoTwoFree(FreeAt(arch, bs, i))
  {
    var l, r := MergeLo(bs, i), MergeHi(bs, i);
    MergeFits(arch, g, bs, l, r);
    MergeKeeps(arch, g, bs, l, r);
    var t := FreeAt(arch, bs, i);
    forall j: nat | j < |t| - 1 ensures OneUsed(t, j) {
      var k := j + r - l;
      if j < l {
        assert OneUsed(bs, j);
      } else {
        assert t[j + 1] == bs[k + 1];
        if j > l { assert t[j] == bs[k]; }
        assert OneUsed(bs, k);
      }
    }
  }

  // ----- live blocks -----

  /** The blocks handed out and not yet freed. */
  ghost function Live(bs: seq<Block>): set<Block>
  {
    set b | b in bs && b.used
  }

  /** p is the payload address of a live block. */
  ghost predicate IsLive(arch: Arch, bs: seq<Block>, p: nat)
  {
    exists b :: b in Live(bs) && p == b.addr + HeaderSize(arch)
  }

  /** Index of the block at address a, or the number of blocks. */
  function IndexOf(bs: seq<Block>, a: nat): (i: nat)
    ensures i <= |bs|
    ensures i < |bs| ==> bs[i].addr == a
    ensures i == |bs| ==> forall j :: 0 <= j < |bs| ==> bs[j].addr != a
  {
    if bs == [] then 0
    else if bs[0].addr == a then 0
    else
      assert forall j :: 1 <= j < |bs| ==> bs[j] == bs[1..][j - 1];
      IndexOf(bs[1..], a) + 1
  }

  lemma IndexOfUnique(arch: Arch, g: Region, bs: seq<Block>, i: nat)
    requires Tiles(arch, g, bs) && i < |bs|
    ensures IndexOf(bs, bs[i].addr) == i
  {
    TilesOrderedAll(arch, g, bs);
  }

  /** Payloads of different live blocks share no address and lie inside the region. */
  lemma LivePayloadsDisjoint(arch: Arch, g: Region, bs: seq<Block>, b: Block, c: Block)
    requires Tiles(arch, g, bs)
    requires b in Live(bs) && c in Live(bs) && b != c
    ensures End(arch, b) <= c.addr || End(arch, c) <= b.addr
    ensures g.start <= b.addr && End(arch, b) <= g.Limit()
  {
    TilesOrderedAll(arch, g, bs);
    var i :| 0 <= i < |bs| && bs[i] == b;
    var j :| 0 <= j < |bs| && bs[j] == c;
  }

  lemma LiveConcat(a: seq<Block>, b: seq<Block>)
    ensures Live(a + b) == Live(a) + Live(b)
  {
  }

  lemma SplitAround<T>(s: seq<T>, l: nat, r: nat)
    requires l <= r <= |s|
    ensures s == s[..l] + s[l..r] + s[r..]
  {
  }

  /** No block outside l..r has the address of a block inside. */
  lemma AddressesApart(arch: Arch, g: Region, bs: seq<Block>, l: nat, i: nat, r: nat)
    requires Tiles(arch, g, bs) && l <= i < r <= |bs|
    ensures forall b :: b in bs[..l] || b in bs[r..] ==> b.addr != bs[i].addr
  {
    forall b | b in bs[..l] || b in bs[r..] ensures b.addr != bs[i].addr {
      if b in bs[..l] {
        var j :| 0 <= j < l && bs[j] == b;
        TilesOrdered(arch, g, bs, j, i);
      } else {
        var j :| r <= j < |bs| && bs[j] == b;
        TilesOrdered(arch, g, bs, i, j);
      }
    }
  }

  lemma AllocLive(arch: Arch, g: Region, bs: seq<Block>, i: nat, n: nat)
    requires Tiles(arch, g, bs)
    requires i < |bs| && Fits(bs[i], n)
    ensures var c := Carve(arch, bs[i], n)[0];
            Live(AllocAt(arch, bs, i, n)) == Live(bs) + {c} && c !in Live(bs)
  {
    var a, y, b := bs[..i], Carve(arch, bs[i], n), bs[i + 1..];
    SplitAround(bs, i, i + 1);
    AddressesApart(arch, g, bs, i, i, i + 1);
    assert bs[i..i + 1] == [bs[i]];
    LiveConcat(a + [bs[i]], b);
    LiveConcat(a, [bs[i]]);
    LiveConcat(a + y, b);
    LiveConcat(a, y);
    assert Live([bs[i]]) == {};
    assert Live(y) == {y[0]};
  }

  /** Around a used block, the stretch that a free swallows holds no other live block. */
  lemma MergeLive(bs: seq<Block>, i: nat)
    requires i < |bs| && bs[i].used
    ensures Live(bs[MergeLo(bs, i)..MergeHi(bs, i) + 1]) == {bs[i]}
  {
    var l := MergeLo(bs, i);
    var x := bs[l..MergeHi(bs, i) + 1];
    assert x[i - l] == bs[i];
    forall c | c in Live(x) ensures c == bs[i] {
      var j :| 0 <= j < |x| && x[j] == c;
      assert bs[l + j] == c;
    }
  }

  lemma FreeLive(arch: Arch, g: Region, bs: seq<Block>, i: nat)
    requires Tiles(arch, g, bs)
    requires i < |bs| && bs[i].used
    requires bs[MergeLo(bs, i)].addr + HeaderSize(arch) <= End(arch, bs[MergeHi(bs, i)])
    ensures Live(FreeAt(arch, bs, i)) == Live(bs) - {bs[i]}
  {
    var l, r := MergeLo(bs, i), MergeHi(bs, i) + 1;
    var a, x, b := bs[..l], bs[l..r], bs[r..];
    var y := [Block(bs[l].addr, End(arch, bs[r - 1]) - bs[l].addr - HeaderSize(arch), false)];
    SplitAround(bs, l, r);
    AddressesApart(arch, g, bs, l, i, r);
    LiveConcat(a + x, b);
    LiveConcat(a, x);
    LiveConcat(a + y, b);
    LiveConcat(a, y);
    assert Live(y) == {};
    MergeLive(bs, i);
    assert bs[i] !in a && bs[i] !in b;
  }

  // ----- totals -----

  /** Total payload size of the live blocks. */
  function LiveTotal(bs: seq<Block>): nat
  {
    if bs == [] then 0 else (if bs[0].used then bs[0].size else 0) + LiveTotal(bs[1..])
  }

  lemma {:induction false} LiveTotalConcat(a: seq<Block>, b: seq<Block>)
    ensures LiveTotal(a + b) == LiveTotal(a) + LiveTotal(b)
  {
    if a == [] {
      assert a + b == b;
    } else {
      LiveTotalConcat(a[1..], b);
      assert (a + b)[1..] == a[1..] + b;
    }
  }

  /** Replacing a stretch of blocks changes the total by the difference of the stretches. */
  lemma LiveTotalReplace(a: seq<Block>, x: seq<Block>, y: seq<Block>, b: seq<Block>)
    ensures LiveTotal(a + y + b) == LiveTotal(a + x + b) - LiveTotal(x) + LiveTotal(y)
  {
    LiveTotalConcat(a + y, b);
    LiveTotalConcat(a, y);
    LiveTotalConcat(a + x, b);
    LiveTotalConcat(a, x);
  }

  lemma AllocTotal(arch: Arch, bs: seq<Block>, i: nat, n: nat)
    requires i < |bs| && Fits(bs[i], n)
    ensures LiveTotal(AllocAt(arch, bs, i, n)) == LiveTotal(bs) + Carve(arch, bs[i], n)[0].size
  {
    var y := Carve(arch, bs[i], n);
    SplitAround(bs, i, i + 1);
    assert bs[i..i + 1] == [bs[i]];
    LiveTotalReplace(bs[..i], [bs[i]], y, bs[i + 1..]);
    CarveTotal(arch, bs[i], n);
  }

  lemma CarveTotal(arch: Arch, b: Block, n: nat)
    requires Fits(b, n)
    ensures LiveTotal([b]) == 0
    ensures LiveTotal(Carve(arch, b, n)) == Carve(arch, b, n)[0].size
  {
    var y := Carve(arch, b, n);
    if |y| == 2 { assert y[1..] == [y[1]] && LiveTotal(y[1..]) == 0; }
  }

  /** Around a used block, the stretch that a free swallows holds no other used block. */
  lemma MergeTotal(bs: seq<Block>, i: nat)
    requires i < |bs| && bs[i].used
    ensures LiveTotal(bs[MergeLo(bs, i)..MergeHi(bs, i) + 1]) == bs[i].size
  {
    var l, r := MergeLo(bs, i), MergeHi(bs, i);
    var right := bs[i..r + 1];
    assert right[1..] == bs[i + 1..r + 1];
    if r > i {
      assert bs[i + 1..r + 1] == [bs[r]];
      assert LiveTotal([bs[r]]) == 0;
    }
    assert LiveTotal(right) == bs[i].size;
    if l < i {
      assert bs[l..r + 1][1..] == right;
    } else {
      assert bs[l..r + 1] == right;
    }
  }

  lemma FreeIsNoTotal(b: Block)
    requires !b.used
    ensures LiveTotal([b]) == 0
  {
  }

  lemma FreeTotal(arch: Arch, bs: seq<Block>, i: nat)
    requires i < |bs| && bs[i].used
    requires bs[MergeLo(bs, i)].addr + HeaderSize(arch) <= End(arch, bs[MergeHi(bs, i)])
    ensures LiveTotal(FreeAt(arch, bs, i)) == LiveTotal(bs) - bs[i].size
  {
    hide LiveTotal;
    var l, r := MergeLo(bs, i), MergeHi(bs, i) + 1;
    var y := [Block(bs[l].addr, End(arch, bs[r - 1]) - bs[l].addr - HeaderSize(arch), false)];
    SplitAround(bs, l, r);
    LiveTotalReplace(bs[..l], bs[l..r], y, bs[r..]);
    MergeTotal(bs, i);
    FreeIsNoTotal(y[0]);
  }
}
