/**
 The kernel heap: first-fit allocation over headers linked through the managed
 bytes. Each method is tied to the block-list functions of HeapSpec and HeapRun.
 */
module Heap {

  import opened Bytes
  import opened Machine
  import opened Sequences
  import opened HeapSpec
  import opened HeapMem
  import opened HeapRun

  /** Writing bytes inside the header at address a changes at most that header. */
  lemma SpliceOnly(arch: Arch, g: Region, m: seq<byte>, a: nat, o: nat, v: seq<byte>)
    requires |m| == g.total && g.start <= a <= g.Limit() - HeaderSize(arch)
    requires a - g.start <= o && o + |v| <= a - g.start + HeaderSize(arch)
    ensures OnlyHeaders(arch, g, m, Splice(m, o, v), {a})
  {
    var n, ts := Splice(m, o, v), {a};
    forall i | 0 <= i < g.total && m[i] != n[i]
      ensures exists t :: t in ts && InHeader(arch, t, g.start + i)
    {
      assert a in ts && InHeader(arch, a, g.start + i);
    }
  }

  function Min(a: nat, b: nat): nat { if a < b then a else b }

  /** The k bytes from q on in n are the first k bytes of the payload of b in m. */
  ghost predicate Copied(arch: Arch, g: Region, m: seq<byte>, n: seq<byte>, b: Block, q: nat, k: nat)
  {
    BytesAt(g, n, q, k) == BytesAt(g, m, b.addr + HeaderSize(arch), k) && |BytesAt(g, n, q, k)| == k
  }

  class Heap {
    const arch: Arch
    const g: Region
    const mem: array<byte>
    var head: nat
    var used: nat
    ghost var bs: seq<Block>

    ghost function Model(): State
      reads this
    {
      State(bs, used)
    }

    ghost predicate Sized()
    {
      RegionOk(arch, g) && mem.Length == g.total
    }

    ghost function Hs(): map<nat, Hdr>
      requires Sized()
      reads mem
    {
      Headers(arch, g, mem[..])
    }

    /** The headers in memory form the list bs, which tiles the region. */
    ghost predicate Chained()
      reads this, mem
    {
      Sized() && head == g.start && Tiles(arch, g, bs) && Linked(Hs(), bs)
    }

    ghost predicate Valid()
      reads this, mem
    {
      Chained() && Inv(arch, g, Model())
    }

    // ----- header fields -----

    ghost predicate HeaderRoom(a: nat)
    {
      Sized() && g.start <= a <= g.Limit() - HeaderSize(arch)
    }

    function Load(o: nat, k: nat): (v: nat)
      requires o + k <= mem.Length
      reads mem
      ensures v == Le(mem[..][o..o + k])
    {
      assert mem[o..o + k] == mem[..][o..o + k];
      Le(mem[o..o + k])
    }

    function Magic(a: nat): (v: nat)
      requires HeaderRoom(a)
      reads mem
      ensures v == Hs()[a].magic
    {
      Load(a - g.start, 4)
    }

    function Size(a: nat): (v: nat)
      requires HeaderRoom(a)
      reads mem
      ensures v == Hs()[a].size
    {
      Load(a - g.start + 4, 4)
    }

    function Used(a: nat): (v: nat)
      requires HeaderRoom(a)
      reads mem
      ensures v == Hs()[a].used
    {
      mem[a - g.start + 8]
    }

    function Next(a: nat): (v: nat)
      requires HeaderRoom(a)
      reads mem
      ensures v == Hs()[a].next
    {
      Load(a - g.start + NextOffset(arch), arch.PtrSize())
    }

    function Prev(a: nat): (v: nat)
      requires HeaderRoom(a)
      reads mem
      ensures v == Hs()[a].prev
    {
      Load(a - g.start + PrevOffset(arch), arch.PtrSize())
    }

    method Store(o: nat, v: seq<byte>)
      requires o + |v| <= mem.Length
      modifies mem
      ensures mem[..] == Splice(old(mem[..]), o, v)
    {
      forall i | 0 <= i < |v| { mem[o + i] := v[i]; }
    }

    method SetMagic(a: nat, v: nat)
      requires HeaderRoom(a) && v < WORD32
      modifies mem
      ensures OnlyHeaders(arch, g, old(mem[..]), mem[..], {a})
      ensures Hs()[a] == old(Hs()[a]).(magic := v)
    {
      StoreMagic(arch, mem[..], a - g.start, v);
      SpliceOnly(arch, g, mem[..], a, a - g.start, ToLe(v, 4));
      Store(a - g.start, ToLe(v, 4));
    }

    method SetSize(a: nat, v: nat)
      requires HeaderRoom(a) && v < WORD32
      modifies mem
      ensures OnlyHeaders(arch, g, old(mem[..]), mem[..], {a})
      ensures Hs()[a] == old(Hs()[a]).(size := v)
    {
      StoreSize(arch, mem[..], a - g.start, v);
      SpliceOnly(arch, g, mem[..], a, a - g.start + 4, ToLe(v, 4));
      Store(a - g.start + 4, ToLe(v, 4));
    }

    method SetUsed(a: nat, v: byte)
      requires HeaderRoom(a)
      modifies mem
      ensures OnlyHeaders(arch, g, old(mem[..]), mem[..], {a})
      ensures Hs()[a] == old(Hs()[a]).(used := v)
    {
      StoreUsed(arch, mem[..], a - g.start, v);
      SpliceOnly(arch, g, mem[..], a, a - g.start + 8, [v]);
      Store(a - g.start + 8, [v]);
    }

    method SetNext(a: nat, v: nat)
      requires HeaderRoom(a) && v < arch.WordMod()
      modifies mem
      ensures OnlyHeaders(arch, g, old(mem[..]), mem[..], {a})
      ensures Hs()[a] == old(Hs()[a]).(next := v)
    {
      StoreNext(arch, mem[..], a - g.start, v);
      SpliceOnly(arch, g, mem[..], a, a - g.start + NextOffset(arch), ToLe(v, arch.PtrSize()));
      Store(a - g.start + NextOffset(arch), ToLe(v, arch.PtrSize()));
    }

    method SetPrev(a: nat, v: nat)
      requires HeaderRoom(a) && v < arch.WordMod()
      modifies mem
      ensures OnlyHeaders(arch, g, old(mem[..]), mem[..], {a})
      ensures Hs()[a] == old(Hs()[a]).(prev := v)
    {
      StorePrev(arch, mem[..], a - g.start, v);
      SpliceOnly(arch, g, mem[..], a, a - g.start + PrevOffset(arch), ToLe(v, arch.PtrSize()));
      Store(a - g.start + PrevOffset(arch), ToLe(v, arch.PtrSize()));
    }

    /** The five assignments that make a fresh free header. */
    method InitHeader(a: nat, size: nat, next: nat, prev: nat)
      requires HeaderRoom(a) && size < WORD32 && next < arch.WordMod() && prev < arch.WordMod()
      modifies mem
      ensures OnlyHeaders(arch, g, old(mem[..]), mem[..], {a})
      ensures Hs()[a] == Hdr(HEAP_MAGIC, size, 0, next, prev)
    {
      ghost var m0 := mem[..];
      SetMagic(a, HEAP_MAGIC);
      ghost var m1 := mem[..];
      SetSize(a, size);
      OnlyHeadersTrans(arch, g, m0, m1, mem[..], {a}, {a});
      ghost var m2 := mem[..];
      SetUsed(a, 0);
      OnlyHeadersTrans(arch, g, m0, m2, mem[..], {a}, {a});
      ghost var m3 := mem[..];
      SetNext(a, next);
      OnlyHeadersTrans(arch, g, m0, m3, mem[..], {a}, {a});
      ghost var m4 := mem[..];
      SetPrev(a, prev);
      OnlyHeadersTrans(arch, g, m0, m4, mem[..], {a}, {a});
    }

    /** What block i of the chain holds, read through its header. */
    lemma Reads(i: nat)
      requires Chained() && i < |bs|
      ensures HeaderRoom(bs[i].addr) && bs[i].addr > 0
      ensures Hs()[bs[i].addr] == Expect(bs, i)
    {
      assert Holds(Hs(), bs, i);
    }

    // ----- the operations -----

    method FindFree(n: nat) returns (b: nat)
      requires Chained()
      ensures var i := FirstFit(bs, n); b == if i < |bs| then bs[i].addr else 0
      ensures b == 0 <==> FirstFit(bs, n) == |bs|
    {
      hide HdrAt, Headers, Load;
      b := head;
      ghost var k := 0;
      Reads(0);
      while b != 0
        invariant k <= |bs|
        invariant b == if k < |bs| then bs[k].addr else 0
        invariant k < |bs| ==> b != 0
        invariant forall j :: 0 <= j < k ==> !Fits(bs[j], n)
        decreases |bs| - k
      {
        Reads(k);
        if Used(b) == 0 && Size(b) >= n { return; }
        if k + 1 < |bs| { Reads(k + 1); }
        b := Next(b);
        k := k + 1;
      }
    }

    /** The header writes of split, for a new header at nb between b and nx. */
    method WriteSplit(b: nat, n: nat, nb: nat, rest: nat, nx: nat)
      requires HeaderRoom(b) && HeaderRoom(nb) && Apart(arch, b, nb) && b > 0
      requires nx != 0 ==> HeaderRoom(nx) && Apart(arch, nx, nb) && Apart(arch, nx, b)
      requires n < WORD32 && rest < WORD32 && nx < arch.WordMod()
      modifies mem
      ensures OnlyHeaders(arch, g, old(mem[..]), mem[..], {b, nb} + (if nx != 0 then {nx} else {}))
      ensures Hs()[nb] == Hdr(HEAP_MAGIC, rest, 0, nx, b)
      ensures Hs()[b] == old(Hs()[b]).(size := n, next := nb)
      ensures nx != 0 ==> Hs()[nx] == old(Hs()[nx]).(prev := nb)
    {
      hide HdrAt, Headers, Load;
      ghost var m0 := mem[..];
      InitHeader(nb, rest, nx, b);
      ghost var m1 := mem[..];
      OnlyHeadersKeeps(arch, g, m0, m1, {nb});
      ghost var nxs := if nx != 0 then {nx} else {};
      if nx != 0 { SetPrev(nx, nb); }
      ghost var m2 := mem[..];
      OnlyHeadersKeeps(arch, g, m1, m2, nxs);
      SetNext(b, nb);
      ghost var m3 := mem[..];
      OnlyHeadersKeeps(arch, g, m2, m3, {b});
      SetSize(b, n);
      OnlyHeadersKeeps(arch, g, m3, mem[..], {b});
      OnlyHeadersTrans(arch, g, m0, m1, m2, {nb}, nxs);
      OnlyHeadersTrans(arch, g, m0, m2, m3, {nb} + nxs, {b});
      OnlyHeadersTrans(arch, g, m0, m3, mem[..], {nb} + nxs + {b}, {b});
      assert {b, nb} + nxs == {nb} + nxs + {b} + {b};
    }

    method Split(b: nat, n: nat, ghost i: nat)
      requires Chained() && NoTwoFree(bs)
      requires i < |bs| && bs[i].addr == b && Fits(bs[i], n)
      modifies mem, this`bs
      ensures Chained()
      ensures bs == old(bs)[..i] + Cut(arch, old(bs)[i], n) + old(bs)[i + 1..]
      ensures OnlyHeaders(arch, g, old(mem[..]), mem[..], Addrs(bs))
    {
      hide HdrAt, Headers, Load, Linked, NoTwoFree;
      Reads(i);
      ghost var t := bs[..i] + Cut(arch, bs[i], n) + bs[i + 1..];
      CutTiles(arch, g, bs, i, n);
      RoomAt(i);
      if Size(b) < n + HeaderSize(arch) + MIN_SPLIT {
        assert t == bs;
        return;
      }
      var nb := b + HeaderSize(arch) + n;
      var nx := Next(b);
      BlocksApart(arch, g, t);
      assert t[i].addr == b && t[i + 1].addr == nb;
      assert nx != 0 ==> t[i + 2].addr == nx;
      if i + 1 < |bs| { Reads(i + 1); }
      WriteSplit(b, n, nb, Size(b) - n - HeaderSize(arch), nx);
      SplitDone(old(mem[..]), t, i);
      bs := t;
    }

    /** Block i lies in the region, so sums with its size do not wrap. */
    lemma RoomAt(i: nat)
      requires Chained() && i < |bs|
      ensures End(arch, bs[i]) <= g.Limit()
      ensures bs[i].size + HeaderSize(arch) + MIN_SPLIT <= arch.WordMod() && bs[i].size < WORD32
    {
      TilesOrderedAll(arch, g, bs);
    }

    lemma SplitDone(m0: seq<byte>, t: seq<Block>, i: nat)
      requires Sized() && |m0| == g.total && i < |bs|
      requires Linked(Headers(arch, g, m0), bs)
      requires Tiles(arch, g, t) && |t| == |bs| + 1
      requires t[..i] == bs[..i] && t[i + 2..] == bs[i + 1..]
      requires t[i].addr == bs[i].addr && t[i].used == bs[i].used && !t[i + 1].used
      requires var ts := {t[i].addr, t[i + 1].addr} + (if i + 2 < |t| then {t[i + 2].addr} else {});
               OnlyHeaders(arch, g, m0, mem[..], ts)
      requires forall j :: i <= j < i + 3 && j < |t| ==> t[j].addr in Hs()
      requires Hs()[t[i].addr] == Headers(arch, g, m0)[t[i].addr].(size := t[i].size, next := t[i + 1].addr)
      requires Hs()[t[i + 1].addr] == Hdr(HEAP_MAGIC, t[i + 1].size, 0, if i + 2 < |t| then t[i + 2].addr else 0, t[i].addr)
      requires i + 2 < |t| ==> Hs()[t[i + 2].addr] == Headers(arch, g, m0)[t[i + 2].addr].(prev := t[i + 1].addr)
      ensures Linked(Hs(), t)
      ensures OnlyHeaders(arch, g, m0, mem[..], Addrs(t))
    {
      hide HdrAt, Headers, Load;
      var hs := Headers(arch, g, m0);
      var ts := {t[i].addr, t[i + 1].addr} + (if i + 2 < |t| then {t[i + 2].addr} else {});
      OnlyHeadersKeeps(arch, g, m0, mem[..], ts);
      OnlyHeadersMore(arch, g, m0, mem[..], ts, Addrs(t));
      assert forall j :: 0 <= j < i ==> t[j] == t[..i][j] == bs[j];
      assert forall j :: i + 2 <= j < |t| ==> t[j] == t[i + 2..][j - (i + 2)] == bs[j - 1];
      assert Holds(hs, bs, i);
      assert i + 1 < |bs| ==> Holds(hs, bs, i + 1);
      LinkedSplit(arch, g, hs, Hs(), bs, t, i);
    }

    /** Block a takes over block c, which follows it, with its header. */
    method Absorb(a: nat, c: nat, ghost l: nat)
      requires Chained()
      requires l + 1 < |bs| && bs[l].addr == a && bs[l + 1].addr == c
      requires !bs[l].used
      requires bs[l].addr + HeaderSize(arch) <= End(arch, bs[l + 1])
      modifies mem, this`bs
      ensures Chained()
      ensures bs == Merge(arch, old(bs), l, l + 1)
      ensures OnlyHeaders(arch, g, old(mem[..]), mem[..], Addrs(old(bs)))
      ensures HeaderRoom(c) && Hs()[c] == old(Hs()[c])
    {
      hide HdrAt, Headers, Load, Linked, OnlyHeaders, Merge, Addrs, Tiles;
      Reads(l);
      Reads(l + 1);
      if l + 2 < |bs| { Reads(l + 2); }
      RoomAt(l + 1);
      ghost var t := Merge(arch, bs, l, l + 1);
      MergeKeeps(arch, g, bs, l, l + 1);
      MergeShape(arch, bs, l);
      BlocksApart(arch, g, bs);
      TilesAdjoin(arch, g, bs, l);
      var nx := Next(c);
      WriteMerge(a, Size(a) + HeaderSize(arch) + Size(c), nx);
      OnlyHeadersKeeps(arch, g, old(mem[..]), mem[..], {a} + (if nx != 0 then {nx} else {}));
      MergeDone(old(mem[..]), t, l);
      bs := t;
    }

    method WriteMerge(a: nat, size: nat, nx: nat)
      requires HeaderRoom(a) && size < WORD32 && nx < arch.WordMod()
      requires nx != 0 ==> HeaderRoom(nx) && Apart(arch, nx, a)
      modifies mem
      ensures OnlyHeaders(arch, g, old(mem[..]), mem[..], {a} + (if nx != 0 then {nx} else {}))
      ensures Hs()[a] == old(Hs()[a]).(size := size, next := nx)
      ensures nx != 0 ==> Hs()[nx] == old(Hs()[nx]).(prev := a)
    {
      hide HdrAt, Headers, Load;
      ghost var m0 := mem[..];
      SetSize(a, size);
      ghost var m1 := mem[..];
      OnlyHeadersKeeps(arch, g, m0, m1, {a});
      SetNext(a, nx);
      ghost var m2 := mem[..];
      OnlyHeadersKeeps(arch, g, m1, m2, {a});
      ghost var nxs := if nx != 0 then {nx} else {};
      if nx != 0 { SetPrev(nx, a); }
      OnlyHeadersKeeps(arch, g, m2, mem[..], nxs);
      OnlyHeadersTrans(arch, g, m0, m1, m2, {a}, {a});
      OnlyHeadersTrans(arch, g, m0, m2, mem[..], {a} + {a}, nxs);
      assert {a} + nxs == {a} + {a} + nxs;
    }

    lemma MergeDone(m0: seq<byte>, t: seq<Block>, l: nat)
      requires Sized() && |m0| == g.total && l + 1 < |bs|
      requires Tiles(arch, g, bs) && Linked(Headers(arch, g, m0), bs)
      requires Tiles(arch, g, t) && |t| == |bs| - 1
      requires t[..l] == bs[..l] && t[l + 1..] == bs[l + 2..]
      requires t[l].addr == bs[l].addr && t[l].used == bs[l].used
      requires OnlyHeaders(arch, g, m0, mem[..], {t[l].addr} + (if l + 1 < |t| then {t[l + 1].addr} else {}))
      requires forall j :: l <= j < l + 2 && j < |t| ==> t[j].addr in Hs()
      requires Hs()[t[l].addr]
               == Headers(arch, g, m0)[t[l].addr].(size := t[l].size, next := if l + 1 < |t| then t[l + 1].addr else 0)
      requires l + 1 < |t| ==> Hs()[t[l + 1].addr] == Headers(arch, g, m0)[t[l + 1].addr].(prev := t[l].addr)
      ensures Linked(Hs(), t)
      ensures OnlyHeaders(arch, g, m0, mem[..], Addrs(bs))
    {
      hide HdrAt, Headers, Load;
      var hs := Headers(arch, g, m0);
      var ts := {t[l].addr} + (if l + 1 < |t| then {t[l + 1].addr} else {});
      OnlyHeadersKeeps(arch, g, m0, mem[..], ts);
      assert forall j :: 0 <= j < l ==> t[j] == t[..l][j] == bs[j];
      assert forall j :: l < j < |t| ==> t[j] == t[l + 1..][j - (l + 1)] == bs[j + 1];
      assert ts <= Addrs(bs) by {
        assert bs[l].addr in Addrs(bs);
        assert l + 1 < |t| ==> bs[l + 2].addr in Addrs(bs);
      }
      OnlyHeadersMore(arch, g, m0, mem[..], ts, Addrs(bs));
      assert Holds(hs, bs, l);
      assert l + 2 < |bs| ==> Holds(hs, bs, l + 2);
      LinkedMerge(arch, g, hs, Hs(), bs, t, l);
    }

    /** Only block i may have free neighbours. */
    ghost predicate FreeOnlyAround(i: nat)
      reads this
    {
      forall k: nat :: k + 1 < |bs| && k + 1 != i && k != i ==> OneUsed(bs, k)
    }

    /** The loop of coalesce: take over the free blocks that follow. */
    method CoalesceForward(b: nat, ghost i: nat)
      requires Chained() && FreeOnlyAround(i)
      requires i < |bs| && bs[i].addr == b && !bs[i].used
      requires bs[i].addr + HeaderSize(arch) <= End(arch, bs[MergeHi(bs, i)])
      modifies mem, this`bs
      ensures Chained()
      ensures bs == Merge(arch, old(bs), i, MergeHi(old(bs), i))
      ensures OnlyHeaders(arch, g, old(mem[..]), mem[..], Addrs(old(bs)))
    {
      hide HdrAt, Headers, Load;
      ghost var was := bs;
      ghost var r := MergeHi(bs, i);
      Reads(i);
      if i + 1 < |bs| { Reads(i + 1); }
      assert Merge(arch, bs, i, i) == bs;
      assert r == i + 1 && i + 2 < |was| ==> OneUsed(was, i + 1);
      var nx := Next(b);
      while nx != 0 && Used(nx) == 0
        invariant Chained() && i < |bs|
        invariant bs == was || (r == i + 1 && bs == Merge(arch, was, i, r))
        invariant nx == if i + 1 < |bs| then bs[i + 1].addr else 0
        invariant nx != 0 ==> HeaderRoom(nx) && Hs()[nx] == Expect(bs, i + 1)
        invariant OnlyHeaders(arch, g, old(mem[..]), mem[..], Addrs(was))
        invariant bs == was ==> mem[..] == old(mem[..])
        decreases |bs|
      {
        Absorb(b, nx, i);
        Reads(i);
        if i + 1 < |bs| { Reads(i + 1); }
        nx := Next(b);
      }
    }

    method Coalesce(b: nat, ghost i: nat)
      requires Chained() && FreeOnlyAround(i)
      requires i < |bs| && bs[i].addr == b && !bs[i].used
      requires bs[MergeLo(bs, i)].addr + HeaderSize(arch) <= End(arch, bs[MergeHi(bs, i)])
      modifies mem, this`bs
      ensures Chained()
      ensures bs == FreeAt(arch, old(bs), i)
      ensures OnlyHeaders(arch, g, old(mem[..]), mem[..], Addrs(old(bs)))
      ensures HeaderRoom(b) && Hs()[b].magic == HEAP_MAGIC && Hs()[b].used == 0
    {
      hide HdrAt, Headers, Load;
      ghost var was := bs;
      ghost var r := MergeHi(bs, i);
      MergeFits(arch, g, bs, i, r);
      CoalesceForward(b, i);
      Reads(i);
      if i > 0 { Reads(i - 1); }
      var pv := Prev(b);
      if pv != 0 && Used(pv) == 0 {
        MergeMerge(arch, g, was, i, r);
        MergeAddrs(arch, was, i, r);
        ghost var m1, mid := mem[..], bs;
        Absorb(pv, b, i - 1);
        OnlyHeadersMore(arch, g, m1, mem[..], Addrs(mid), Addrs(was));
        OnlyHeadersTrans(arch, g, old(mem[..]), m1, mem[..], Addrs(was), Addrs(was));
        assert Addrs(was) + Addrs(was) == Addrs(was);
      }
    }

    /** The assignment to the used field of block i. */
    method MarkUsed(b: nat, ghost i: nat, ghost m0: seq<byte>, mark: bool)
      requires Chained() && i < |bs| && bs[i].addr == b
      requires OnlyHeaders(arch, g, m0, mem[..], Addrs(bs))
      modifies mem, this`bs
      ensures Chained()
      ensures bs == old(bs)[i := old(bs)[i].(used := mark)]
      ensures OnlyHeaders(arch, g, m0, mem[..], Addrs(bs))
    {
      hide HdrAt, Headers, Load;
      Reads(i);
      ghost var m1 := mem[..];
      SetUsed(b, if mark then 1 else 0);
      OnlyHeadersKeeps(arch, g, m1, mem[..], {b});
      LinkedMark(arch, g, old(Hs()), Hs(), bs, i, mark);
      ghost var t := bs[i := bs[i].(used := mark)];
      assert Addrs(t) == Addrs(bs) by {
        assert forall k :: 0 <= k < |bs| ==> t[k].addr == bs[k].addr;
      }
      assert {b} <= Addrs(bs);
      OnlyHeadersMore(arch, g, m1, mem[..], {b}, Addrs(bs));
      OnlyHeadersTrans(arch, g, m0, m1, mem[..], Addrs(bs), Addrs(bs));
      assert Addrs(bs) + Addrs(bs) == Addrs(bs);
      bs := t;
    }

    /** heap_init: one free block over the whole region. */
    constructor (arch: Arch, g: Region, mem: array<byte>)
      requires RegionOk(arch, g) && mem.Length == g.total
      modifies mem
      ensures Valid() && Model() == Init(arch, g)
      ensures this.arch == arch && this.g == g && this.mem == mem
    {
      hide HdrAt, Headers, Load, Inv, Tiles;
      this.arch, this.g, this.mem := arch, g, mem;
      head, used := g.start, 0;
      bs := Init(arch, g).bs;
      new;
      InitInv(arch, g);
      InitHeader(g.start, g.total - HeaderSize(arch), 0, 0);
      assert Holds(Hs(), bs, 0);
    }

    /** kmalloc: ok is false where the kernel panics. */
    method Kmalloc(n: nat) returns (ok: bool, p: nat)
      requires Valid() && n < arch.WordMod()
      modifies this, mem
      ensures Valid()
      ensures match DoMalloc(arch, old(Model()), n)
              case Panic => !ok && Model() == old(Model()) && mem[..] == old(mem[..])
              case Done(s, q) => ok && p == q && Model() == s
      ensures forall b :: b in Live(old(bs)) ==> SamePayload(arch, g, old(mem[..]), mem[..], b)
    {
      hide HdrAt, Headers, Load, Hs, AlignUp8, Merge, FreeAt, Addrs, Tiles, NoTwoFree, Linked, LiveTotal, OnlyHeaders, Live, SamePayload;
      ThisKept();
      if n == 0 { return true, 0; }
      var size := AlignUp8(arch, n);
      var b := FindFree(size);
      if b == 0 { return false, 0; }
      ghost var i := FirstFit(bs, size);
      ghost var s0, m0 := Model(), mem[..];
      MallocStep(arch, g, s0, n);
      CutTiles(arch, g, bs, i, size);
      Split(b, size, i);
      MarkUsed(b, i, m0, true);
      AllocLive(arch, g, s0.bs, i, size);
      LiveKept(arch, g, m0, mem[..], s0.bs, bs);
      used := arch.Wrap(used + size);
      return true, b + HeaderSize(arch);
    }

    /** kfree tells this pointer for bad from the bytes in front of it. */
    ghost predicate Detected(p: nat)
      reads mem
    {
      && p >= HeaderSize(arch) && HeaderRoom(p - HeaderSize(arch))
      && (Hs()[p - HeaderSize(arch)].magic != HEAP_MAGIC || Hs()[p - HeaderSize(arch)].used == 0)
    }

    /** kfree: ok is false where the kernel panics. */
    method Kfree(p: nat) returns (ok: bool)
      requires Valid()
      requires LiveOrNull(arch, Model(), p) || Detected(p)
      modifies this, mem
      ensures Valid()
      ensures ok == old(LiveOrNull(arch, Model(), p))
      ensures !ok ==> Model() == old(Model()) && mem[..] == old(mem[..])
      ensures ok ==> DoFree(arch, old(Model()), p) == Done(Model(), 0)
      ensures forall b :: b in Live(bs) ==> SamePayload(arch, g, old(mem[..]), mem[..], b)
      ensures ok && p != 0 ==> Detected(p)
    {
      hide HdrAt, Headers, Load, FreeAt, Merge, Addrs;
      if p == 0 {
        ThisKept();
        return true;
      }
      ghost var live := IsLive(arch, bs, p);
      if live { LiveHeader(p); } else { NotLiveDetected(p); }
      var b := p - HeaderSize(arch);
      if Magic(b) != HEAP_MAGIC || Used(b) == 0 {
        ThisKept();
        return false;
      }
      Release(p, BlockOf(arch, Model(), p));
      return true;
    }

    lemma ThisKept()
      requires Valid()
      ensures forall b :: b in Live(bs) ==> SamePayload(arch, g, mem[..], mem[..], b)
    {
      TilesOrderedAll(arch, g, bs);
    }

    /** The header in front of a live pointer passes both tests of kfree. */
    lemma LiveHeader(p: nat)
      requires Valid() && p != 0 && IsLive(arch, bs, p)
      ensures p >= HeaderSize(arch) && HeaderRoom(p - HeaderSize(arch))
      ensures var i := BlockOf(arch, Model(), p);
              i < |bs| && bs[i].used && bs[i].addr == p - HeaderSize(arch) && Hs()[bs[i].addr] == Expect(bs, i)
    {
      hide HdrAt, Headers, Load;
      LiveIndex(arch, g, Model(), p);
      Reads(BlockOf(arch, Model(), p));
    }

    /** kfree past its two tests. */
    method Release(p: nat, ghost i: nat)
      requires Valid() && p != 0 && IsLive(arch, bs, p) && i == BlockOf(arch, Model(), p)
      modifies this, mem
      ensures Valid()
      ensures DoFree(arch, old(Model()), p) == Done(Model(), 0)
      ensures forall b :: b in Live(bs) ==> SamePayload(arch, g, old(mem[..]), mem[..], b)
      ensures Detected(p)
    {
      hide HdrAt, Headers, Load, FreeAt, Merge, Addrs, MergeLo, MergeHi, Tiles, Linked, LiveTotal, Live, SamePayload;
      LiveHeader(p);
      var b := p - HeaderSize(arch);
      ghost var s0, m0 := Model(), mem[..];
      FreeStep(arch, g, s0, p);
      used := arch.Wrap(used - Size(b));
      FreedList(arch, g, s0.bs, i);
      MarkUsed(b, i, m0, false);
      ghost var m1, mid := mem[..], bs;
      Coalesce(b, i);
      OnlyHeadersTrans(arch, g, m0, m1, mem[..], Addrs(mid), Addrs(mid));
      assert Addrs(mid) + Addrs(mid) == Addrs(mid) == Addrs(s0.bs);
      LiveKept(arch, g, m0, mem[..], bs, s0.bs);
    }

    lemma NotLiveDetected(p: nat)
      requires Valid() && p != 0 && !IsLive(arch, bs, p)
      requires LiveOrNull(arch, Model(), p) || Detected(p)
      ensures Detected(p)
    {
    }

    /** The holder of b stores v at offset k of its payload. */
    method Write(ghost b: Block, p: nat, k: nat, v: byte)
      requires Valid() && b in Live(bs) && p == b.addr + HeaderSize(arch) && k < b.size
      modifies mem
      ensures Valid()
      ensures forall c :: c in Live(bs) && c != b ==> SamePayload(arch, g, old(mem[..]), mem[..], c)
      ensures g.start <= p && p - g.start + k < mem.Length
      ensures mem[..] == old(mem[..])[p - g.start + k := v]
    {
      hide HdrAt, Headers, Load;
      TilesOrderedAll(arch, g, bs);
      mem[p - g.start + k] := v;
      PayloadWrite(arch, g, old(mem[..]), mem[..], bs, b);
    }

    /** memcpy between two payloads. */
    method Memcpy(dst: nat, src: nat, n: nat, ghost b: Block)
      requires Valid() && b in Live(bs) && dst == b.addr + HeaderSize(arch) && n <= b.size
      requires g.start <= src && src + n <= g.Limit()
      requires src + n <= dst || dst + n <= src
      modifies mem
      ensures Valid()
      ensures forall c :: c in Live(bs) && c != b ==> SamePayload(arch, g, old(mem[..]), mem[..], c)
      ensures BytesAt(g, mem[..], dst, n) == BytesAt(g, old(mem[..]), src, n)
    {
      hide HdrAt, Headers, Load, Linked, Inv, Tiles;
      TilesOrderedAll(arch, g, bs);
      var d, s := dst - g.start, src - g.start;
      for i := 0 to n
        invariant mem[d..d + i] == old(mem[s..s + i])
        invariant forall k :: 0 <= k < g.total && !(d <= k < d + i) ==> mem[k] == old(mem[k])
      {
        mem[d + i] := mem[s + i];
        assert mem[d..d + i + 1] == mem[d..d + i] + [mem[d + i]];
        assert old(mem[s..s + i + 1]) == old(mem[s..s + i]) + [old(mem[s + i])];
      }
      PayloadWrite(arch, g, old(mem[..]), mem[..], bs, b);
    }

    /** krealloc: ok is false where the kernel panics. */
    method Krealloc(p: nat, n: nat) returns (ok: bool, q: nat)
      requires Valid() && LiveOrNull(arch, Model(), p) && n < arch.WordMod()
      requires p == 0 || MoveFits(arch, Model(), p, n)
      modifies this, mem
      ensures Valid()
      ensures match DoRealloc(arch, old(Model()), p, n)
              case Panic => !ok && Model() == old(Model()) && mem[..] == old(mem[..])
              case Done(s, r) => ok && q == r && Model() == s
      ensures forall b :: b in Live(old(bs)) && b.addr + HeaderSize(arch) != p ==>
                SamePayload(arch, g, old(mem[..]), mem[..], b)
      ensures ok && p != 0 && n != 0 ==>
                forall b :: b in Live(old(bs)) && b.addr + HeaderSize(arch) == p ==>
                  Copied(arch, g, old(mem[..]), mem[..], b, q, Min(b.size, n))
    {
      hide HdrAt, Headers, Load, FreeAt, Merge, Addrs, AlignUp8, FirstFit, AllocAt, Carve, SamePayload, BytesAt, Tiles, Linked, Hs, DoMalloc, DoFree;
      ok, q := false, 0;
      if p == 0 {
        ok, q := Kmalloc(n);
        return;
      }
      LiveHeader(p);
      ghost var s0 := Model();
      ghost var i := BlockOf(arch, s0, p);
      if n == 0 {
        FreeStep(arch, g, s0, p);
        ok := Kfree(p);
        return ok, 0;
      }
      var b := p - HeaderSize(arch);
      if Magic(b) != HEAP_MAGIC { return; }
      TheBlock(p, i);
      if Size(b) >= n {
        ThisKept();
        return true, p;
      }
      ok, q := Kmalloc(n);
      if !ok { return; }
      ghost var m1 := mem[..];
      SameBytes(arch, g, old(mem[..]), m1, s0.bs[i], s0.bs[i].size);
      MoveTo(q, p, s0, n, i);
      KeptTrans(arch, g, old(mem[..]), m1, mem[..], Live(s0.bs) - {s0.bs[i]});
    }

    /** p belongs to block i and to no other. */
    lemma TheBlock(p: nat, i: nat)
      requires Valid() && i < |bs| && bs[i].addr + HeaderSize(arch) == p
      ensures forall b :: b in Live(bs) && b.addr + HeaderSize(arch) == p ==> b == bs[i]
      ensures g.start <= p && p + bs[i].size <= g.Limit()
      ensures forall k: nat :: k <= bs[i].size ==> |BytesAt(g, mem[..], p, k)| == k
    {
      TilesOrderedAll(arch, g, bs);
      forall b | b in Live(bs) && b.addr + HeaderSize(arch) == p ensures b == bs[i] {
        SameAddressSameBlock(arch, g, Model(), b, bs[i]);
      }
    }

    /** The end of krealloc, after kmalloc gave q: copy the old block i of s0 and free it. */
    method MoveTo(q: nat, p: nat, ghost s0: State, ghost n: nat, ghost i: nat)
      requires Valid() && Inv(arch, g, s0) && n > 0
      requires DoMalloc(arch, s0, n) == Done(Model(), q)
      requires i < |s0.bs| && s0.bs[i].used && s0.bs[i].addr + HeaderSize(arch) == p && s0.bs[i].size <= NewBlock(arch, s0, n).size
      modifies this, mem
      ensures Valid()
      ensures DoFree(arch, old(Model()), p) == Done(Model(), 0)
      ensures forall b :: b in Live(s0.bs) && b != s0.bs[i] ==> SamePayload(arch, g, old(mem[..]), mem[..], b)
      ensures var k := s0.bs[i].size;
              BytesAt(g, mem[..], q, k) == BytesAt(g, old(mem[..]), p, k) && |BytesAt(g, mem[..], q, k)| == k
    {
      hide HdrAt, Headers, Load, FreeAt, Merge, Addrs, AlignUp8, FirstFit, AllocAt, Carve, SamePayload, BytesAt, Tiles, Linked, Hs, DoMalloc, DoFree, LiveTotal, NoTwoFree, Arch.Wrap, BlockOf;
      ghost var was := s0.bs[i];
      MallocStep(arch, g, s0, n);
      ghost var c := NewBlock(arch, s0, n);
      assert was in Live(s0.bs);
      LivePayloadsDisjoint(arch, g, bs, was, c);
      LivePayloadsDisjoint(arch, g, bs, c, was);
      assert IsLive(arch, bs, p);
      LiveHeader(p);
      ghost var j := BlockOf(arch, Model(), p);
      TheBlock(p, j);
      assert bs[j] == was;
      var b := p - HeaderSize(arch);
      Memcpy(q, p, Size(b), c);
      ghost var m1 := mem[..];
      FreeStep(arch, g, Model(), p);
      var ok := Kfree(p);
      assert c in Live(bs) && SamePayload(arch, g, m1, mem[..], c);
      SameBytes(arch, g, m1, mem[..], c, was.size);
      KeptTrans(arch, g, old(mem[..]), m1, mem[..], Live(s0.bs) - {was});
    }

    /** A second free of the same pointer, with nothing in between, is always caught. */
    method FreeTwice(p: nat) returns (ok: bool)
      requires Valid() && p != 0 && IsLive(arch, bs, p)
      modifies this, mem
      ensures !ok && Valid() && DoFree(arch, old(Model()), p) == Done(Model(), 0)
    {
      hide HdrAt, Headers, Load, FreeAt, Merge, Addrs;
      ghost var s0 := Model();
      FreePtrs(arch, g, s0, p);
      ok := Kfree(p);
      assert p !in LivePtrs(arch, bs);
      assert !IsLive(arch, bs, p);
      ok := Kfree(p);
    }

    method Perform(op: Op) returns (ok: bool, p: nat)
      requires Valid() && Legal(arch, Model(), op)
      modifies this, mem
      ensures Valid()
      ensures match Do(arch, old(Model()), op)
              case Panic => !ok && Model() == old(Model()) && mem[..] == old(mem[..])
              case Done(s, q) => ok && p == q && Model() == s
      ensures ok ==> forall b :: b in Live(old(bs)) && b.addr + HeaderSize(arch) != Subject(op) ==>
                b in Live(bs) && SamePayload(arch, g, old(mem[..]), mem[..], b)
      ensures ok && op.Realloc? && op.p != 0 && op.n != 0 ==>
                forall b :: b in Live(old(bs)) && b.addr + HeaderSize(arch) == op.p ==>
                  Copied(arch, g, old(mem[..]), mem[..], b, p, Min(b.size, op.n))
    {
      hide HdrAt, Headers, Load, FreeAt, Merge, Addrs, AlignUp8, FirstFit, AllocAt, Carve;
      ghost var s0 := Model();
      match op {
        case Malloc(n) => ok, p := Kmalloc(n);
        case Free(q) =>
          if q != 0 { FreeStep(arch, g, s0, q); }
          ok := Kfree(q);
          p := 0;
        case Realloc(q, n) => ok, p := Krealloc(q, n);
      }
      if ok {
        forall b | b in Live(s0.bs) && b.addr + HeaderSize(arch) != Subject(op) ensures b in Live(bs) {
          StepLive(arch, g, s0, op, b);
        }
      }
    }

    /** kfree of every live pointer, in any order, leaves the bytes of heap_init's one header. */
    method FreeAll(ps: seq<nat>)
      requires Valid() && LivePtrs(arch, bs) == (set p | p in ps) && Distinct(ps)
      modifies this, mem
      ensures Valid() && bs == Init(arch, g).bs
      ensures HeaderRoom(g.start) && Hs()[g.start] == Hdr(0xAE0C_A001, g.total - HeaderSize(arch), 0, 0, 0)
    {
      hide HdrAt, Headers, Load, Tiles, NoTwoFree, Linked;
      FreeAllRestores(arch, g, Model(), ps);
      var ok := PerformAll(Frees(ps));
      Reads(0);
    }

    /**
     A whole run of calls. Up to the first panic it is the run of the block list, and the
     payload of every block that no call was given is, byte for byte, what it was at the start.
     */
    method PerformAll(ops: seq<Op>) returns (ok: bool)
      requires Valid() && LegalRun(arch, Model(), ops)
      modifies this, mem
      ensures Valid()
      ensures ok == Run(arch, old(Model()), ops).Done?
      ensures ok ==> Model() == Run(arch, old(Model()), ops).s
      ensures ok ==> forall b :: b in Live(old(bs)) && (forall k :: 0 <= k < |ops| ==> Subject(ops[k]) != b.addr + HeaderSize(arch)) ==>
                b in Live(bs) && SamePayload(arch, g, old(mem[..]), mem[..], b)
    {
      hide HdrAt, Headers, Load, Do;
      ThisKept();
      ghost var s0 := Model();
      for i := 0 to |ops|
        invariant Valid() && LegalRun(arch, Model(), ops[i..])
        invariant Run(arch, s0, ops) == Run(arch, Model(), ops[i..])
        invariant forall b :: b in Live(old(bs)) && (forall k :: 0 <= k < i ==> Subject(ops[k]) != b.addr + HeaderSize(arch)) ==>
                    b in Live(bs) && SamePayload(arch, g, old(mem[..]), mem[..], b)
      {
        assert ops[i..][0] == ops[i] && ops[i..][1..] == ops[i + 1..];
        var done, p := Perform(ops[i]);
        if !done { return false; }
      }
      return true;
    }
  }

  /** Blocks live before and after a change of headers of the new list keep their payload. */
  lemma LiveKept(arch: Arch, g: Region, m: seq<byte>, n: seq<byte>, was: seq<Block>, bs: seq<Block>)
    requires Tiles(arch, g, bs) && Live(was) <= Live(bs)
    requires OnlyHeaders(arch, g, m, n, Addrs(bs))
    ensures forall b :: b in Live(was) ==> SamePayload(arch, g, m, n, b)
  {
    forall b | b in Live(was) ensures SamePayload(arch, g, m, n, b) {
      assert b in Live(bs);
      PayloadUntouched(arch, g, m, n, Addrs(bs), bs, b);
    }
  }

  /** Marking a used block free only concerns its own neighbours. */
  lemma FreedList(arch: Arch, g: Region, was: seq<Block>, i: nat)
    requires Tiles(arch, g, was) && NoTwoFree(was) && i < |was| && was[i].used
    ensures var mid := was[i := was[i].(used := false)];
            && (forall k: nat :: k + 1 < |mid| && k + 1 != i && k != i ==> OneUsed(mid, k))
            && mid[MergeLo(mid, i)].addr + HeaderSize(arch) <= End(arch, mid[MergeHi(mid, i)])
            && was[MergeLo(was, i)].addr + HeaderSize(arch) <= End(arch, was[MergeHi(was, i)])
            && FreeAt(arch, mid, i) == FreeAt(arch, was, i)
            && Addrs(mid) == Addrs(was)
  {
    var mid := was[i := was[i].(used := false)];
    FreeKeeps(arch, g, was, i);
    forall k: nat | k + 1 < |mid| && k + 1 != i && k != i ensures OneUsed(mid, k) {
      assert OneUsed(was, k);
    }
    assert MergeLo(mid, i) == MergeLo(was, i) && MergeHi(mid, i) == MergeHi(was, i);
    assert forall k :: 0 <= k < |was| ==> mid[k].addr == was[k].addr;
    assert mid[..MergeLo(was, i)] == was[..MergeLo(was, i)];
    assert mid[MergeHi(was, i) + 1..] == was[MergeHi(was, i) + 1..];
  }

  lemma MergeAddrs(arch: Arch, bs: seq<Block>, l: nat, r: nat)
    requires l <= r < |bs|
    requires bs[l].addr + HeaderSize(arch) <= End(arch, bs[r])
    ensures Addrs(Merge(arch, bs, l, r)) <= Addrs(bs)
  {
    var t := Merge(arch, bs, l, r);
    forall k | 0 <= k < |t| ensures t[k].addr in Addrs(bs) {
      var j := if k <= l then k else k + r - l;
      assert t[k].addr == bs[j].addr;
    }
  }
}
