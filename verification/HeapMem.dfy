/**
 The heap list as it lies in memory: block headers stored little-endian inside
 the managed bytes, and what a change of a few headers leaves alone.
 */
module HeapMem {

  import opened Bytes
  import opened Machine
  import opened HeapSpec

  const HEAP_MAGIC: nat := 0xAE0C_A001

  /** The header fields of one block as numbers. */
  datatype Hdr = Hdr(magic: nat, size: nat, used: nat, next: nat, prev: nat)

  /** The header stored at offset o. */
  function HdrAt(arch: Arch, m: seq<byte>, o: nat): Hdr
    requires o + HeaderSize(arch) <= |m|
  {
    Hdr(Le(m[o..o + 4]), Le(m[o + 4..o + 8]), m[o + 8],
        Le(m[o + NextOffset(arch)..o + PrevOffset(arch)]),
        Le(m[o + PrevOffset(arch)..o + HeaderSize(arch)]))
  }

  /** m with the bytes v stored at offset o. */
  function Splice(m: seq<byte>, o: nat, v: seq<byte>): (r: seq<byte>)
    requires o + |v| <= |m|
    ensures |r| == |m|
  {
    m[..o] + v + m[o + |v|..]
  }

  lemma SpliceReads(m: seq<byte>, o: nat, v: seq<byte>)
    requires o + |v| <= |m|
    ensures Splice(m, o, v)[o..o + |v|] == v
  {
  }

  lemma SpliceAvoids(m: seq<byte>, o: nat, v: seq<byte>, lo: nat, hi: nat)
    requires o + |v| <= |m| && lo <= hi <= |m|
    requires hi <= o || o + |v| <= lo
    ensures Splice(m, o, v)[lo..hi] == m[lo..hi]
  {
  }

  // ----- storing one field changes that field of the header and nothing else -----

  lemma StoreMagic(arch: Arch, m: seq<byte>, o: nat, v: nat)
    requires o + HeaderSize(arch) <= |m| && v < WORD32
    ensures HdrAt(arch, Splice(m, o, ToLe(v, 4)), o) == HdrAt(arch, m, o).(magic := v)
  {
    var b := ToLe(v, 4);
    PowersOf256(); LeToLe(v, 4); SpliceReads(m, o, b);
    SpliceAvoids(m, o, b, o + 4, o + 8);
    SpliceAvoids(m, o, b, o + NextOffset(arch), o + PrevOffset(arch));
    SpliceAvoids(m, o, b, o + PrevOffset(arch), o + HeaderSize(arch));
  }

  lemma StoreSize(arch: Arch, m: seq<byte>, o: nat, v: nat)
    requires o + HeaderSize(arch) <= |m| && v < WORD32
    ensures HdrAt(arch, Splice(m, o + 4, ToLe(v, 4)), o) == HdrAt(arch, m, o).(size := v)
  {
    var b := ToLe(v, 4);
    PowersOf256(); LeToLe(v, 4); SpliceReads(m, o + 4, b);
    SpliceAvoids(m, o + 4, b, o, o + 4);
    SpliceAvoids(m, o + 4, b, o + NextOffset(arch), o + PrevOffset(arch));
    SpliceAvoids(m, o + 4, b, o + PrevOffset(arch), o + HeaderSize(arch));
  }

  lemma StoreUsed(arch: Arch, m: seq<byte>, o: nat, v: byte)
    requires o + HeaderSize(arch) <= |m|
    ensures HdrAt(arch, Splice(m, o + 8, [v]), o) == HdrAt(arch, m, o).(used := v)
  {
    var b := [v];
    SpliceAvoids(m, o + 8, b, o, o + 4);
    SpliceAvoids(m, o + 8, b, o + 4, o + 8);
    SpliceAvoids(m, o + 8, b, o + NextOffset(arch), o + PrevOffset(arch));
    SpliceAvoids(m, o + 8, b, o + PrevOffset(arch), o + HeaderSize(arch));
  }

  lemma StoreNext(arch: Arch, m: seq<byte>, o: nat, v: nat)
    requires o + HeaderSize(arch) <= |m| && v < arch.WordMod()
    ensures HdrAt(arch, Splice(m, o + NextOffset(arch), ToLe(v, arch.PtrSize())), o)
            == HdrAt(arch, m, o).(next := v)
  {
    var b := ToLe(v, arch.PtrSize());
    var at := o + NextOffset(arch);
    PowersOf256(); LeToLe(v, arch.PtrSize()); SpliceReads(m, at, b);
    SpliceAvoids(m, at, b, o, o + 4);
    SpliceAvoids(m, at, b, o + 4, o + 8);
    SpliceAvoids(m, at, b, o + PrevOffset(arch), o + HeaderSize(arch));
  }

  lemma StorePrev(arch: Arch, m: seq<byte>, o: nat, v: nat)
    requires o + HeaderSize(arch) <= |m| && v < arch.WordMod()
    ensures HdrAt(arch, Splice(m, o + PrevOffset(arch), ToLe(v, arch.PtrSize())), o)
            == HdrAt(arch, m, o).(prev := v)
  {
    var b := ToLe(v, arch.PtrSize());
    var at := o + PrevOffset(arch);
    PowersOf256(); LeToLe(v, arch.PtrSize()); SpliceReads(m, at, b);
    SpliceAvoids(m, at, b, o, o + 4);
    SpliceAvoids(m, at, b, o + 4, o + 8);
    SpliceAvoids(m, at, b, o + NextOffset(arch), o + PrevOffset(arch));
  }

  // ----- changes confined to some headers -----

  /** Address i falls in the header of a block at t. */
  predicate InHeader(arch: Arch, t: nat, i: int)
  {
    t <= i < t + HeaderSize(arch)
  }

  /** m and n differ only inside headers at the addresses ts. */
  ghost predicate OnlyHeaders(arch: Arch, g: Region, m: seq<byte>, n: seq<byte>, ts: set<nat>)
  {
    && |m| == |n| == g.total
    && forall i :: 0 <= i < g.total && m[i] != n[i] ==> exists t :: t in ts && InHeader(arch, t, g.start + i)
  }

  /** Addresses of the blocks of a list. */
  ghost function Addrs(bs: seq<Block>): set<nat>
  {
    set k | 0 <= k < |bs| :: bs[k].addr
  }

  lemma OnlyHeadersMore(arch: Arch, g: Region, m: seq<byte>, n: seq<byte>, ts: set<nat>, us: set<nat>)
    requires OnlyHeaders(arch, g, m, n, ts) && ts <= us
    ensures OnlyHeaders(arch, g, m, n, us)
  {
    forall i | 0 <= i < g.total && m[i] != n[i]
      ensures exists t :: t in us && InHeader(arch, t, g.start + i)
    {
      var t :| t in ts && InHeader(arch, t, g.start + i);
      assert t in us;
    }
  }

  lemma OnlyHeadersTrans(arch: Arch, g: Region, m: seq<byte>, n: seq<byte>, k: seq<byte>,
                         ts: set<nat>, us: set<nat>)
    requires OnlyHeaders(arch, g, m, n, ts) && OnlyHeaders(arch, g, n, k, us)
    ensures OnlyHeaders(arch, g, m, k, ts + us)
  {
    forall i | 0 <= i < g.total && m[i] != k[i]
      ensures exists t :: t in ts + us && InHeader(arch, t, g.start + i)
    {
      if m[i] != n[i] {
        var t :| t in ts && InHeader(arch, t, g.start + i);
        assert t in ts + us;
      } else {
        var t :| t in us && InHeader(arch, t, g.start + i);
        assert t in ts + us;
      }
    }
  }

  ghost function HdrAtAddr(arch: Arch, g: Region, m: seq<byte>, a: nat): Hdr
    requires |m| == g.total && g.start <= a <= g.Limit() - HeaderSize(arch)
  {
    HdrAt(arch, m, a - g.start)
  }

  /** The header that would be read at each address of the region. */
  ghost function Headers(arch: Arch, g: Region, m: seq<byte>): (hs: map<nat, Hdr>)
    requires |m| == g.total
    ensures forall a :: a in hs <==> g.start <= a <= g.Limit() - HeaderSize(arch)
  {
    map a: nat | g.start <= a <= g.Limit() - HeaderSize(arch) :: HdrAtAddr(arch, g, m, a)
  }

  predicate Apart(arch: Arch, a: nat, t: nat)
  {
    t + HeaderSize(arch) <= a || a + HeaderSize(arch) <= t
  }

  /** Headers that overlap none of those at ts read the same. */
  ghost predicate Keeps(arch: Arch, hs: map<nat, Hdr>, ks: map<nat, Hdr>, ts: set<nat>)
  {
    && hs.Keys == ks.Keys
    && forall a :: a in hs && (forall t :: t in ts ==> Apart(arch, a, t)) ==> ks[a] == hs[a]
  }

  lemma HdrSame(arch: Arch, m: seq<byte>, n: seq<byte>, o: nat)
    requires o + HeaderSize(arch) <= |m| == |n|
    requires forall i :: o <= i < o + HeaderSize(arch) ==> m[i] == n[i]
    ensures HdrAt(arch, m, o) == HdrAt(arch, n, o)
  {
    assert m[o..o + 4] == n[o..o + 4];
    assert m[o + 4..o + 8] == n[o + 4..o + 8];
    assert m[o + NextOffset(arch)..o + PrevOffset(arch)] == n[o + NextOffset(arch)..o + PrevOffset(arch)];
    assert m[o + PrevOffset(arch)..o + HeaderSize(arch)] == n[o + PrevOffset(arch)..o + HeaderSize(arch)];
  }

  lemma HeaderKept(arch: Arch, g: Region, m: seq<byte>, n: seq<byte>, ts: set<nat>, a: nat)
    requires OnlyHeaders(arch, g, m, n, ts)
    requires g.start <= a <= g.Limit() - HeaderSize(arch)
    requires forall t :: t in ts ==> Apart(arch, a, t)
    ensures HdrAt(arch, m, a - g.start) == HdrAt(arch, n, a - g.start)
  {
    hide HdrAt;
    HdrSame(arch, m, n, a - g.start);
  }

  lemma OnlyHeadersKeeps(arch: Arch, g: Region, m: seq<byte>, n: seq<byte>, ts: set<nat>)
    requires OnlyHeaders(arch, g, m, n, ts)
    ensures Keeps(arch, Headers(arch, g, m), Headers(arch, g, n), ts)
  {
    hide HdrAt;
    var hs, ks := Headers(arch, g, m), Headers(arch, g, n);
    forall a | a in hs && (forall t :: t in ts ==> Apart(arch, a, t)) ensures ks[a] == hs[a] {
      HeaderKept(arch, g, m, n, ts, a);
    }
  }

  /** The payload bytes of b are the same in m and n. */
  ghost predicate SamePayload(arch: Arch, g: Region, m: seq<byte>, n: seq<byte>, b: Block)
  {
    && g.start <= b.addr && End(arch, b) <= g.Limit() && |m| == |n| == g.total
    && forall i :: b.addr + HeaderSize(arch) - g.start <= i < End(arch, b) - g.start ==> m[i] == n[i]
  }

  /** Payloads kept by two changes in a row. */
  lemma KeptTrans(arch: Arch, g: Region, m: seq<byte>, n: seq<byte>, k: seq<byte>, bs: set<Block>)
    requires forall b :: b in bs ==> SamePayload(arch, g, m, n, b)
    requires forall b :: b in bs ==> SamePayload(arch, g, n, k, b)
    ensures forall b :: b in bs ==> SamePayload(arch, g, m, k, b)
  {
    forall b | b in bs ensures SamePayload(arch, g, m, k, b) {
      assert SamePayload(arch, g, m, n, b) && SamePayload(arch, g, n, k, b);
    }
  }

  /** The k bytes from address p, where the region has them. */
  ghost function BytesAt(g: Region, m: seq<byte>, p: nat, k: nat): (v: seq<byte>)
    ensures g.start <= p && p - g.start + k <= |m| ==> |v| == k
  {
    if g.start <= p && p - g.start + k <= |m| then m[p - g.start..p - g.start + k] else []
  }

  lemma SameBytes(arch: Arch, g: Region, m: seq<byte>, n: seq<byte>, b: Block, k: nat)
    requires SamePayload(arch, g, m, n, b) && k <= b.size
    ensures BytesAt(g, m, b.addr + HeaderSize(arch), k) == BytesAt(g, n, b.addr + HeaderSize(arch), k)
  {
  }

  /** Headers at block addresses never overlap a payload of the same list. */
  lemma PayloadUntouched(arch: Arch, g: Region, m: seq<byte>, n: seq<byte>, ts: set<nat>,
                         bs: seq<Block>, b: Block)
    requires Tiles(arch, g, bs) && b in bs
    requires OnlyHeaders(arch, g, m, n, ts)
    requires ts <= Addrs(bs)
    ensures SamePayload(arch, g, m, n, b)
  {
    var j :| 0 <= j < |bs| && bs[j] == b;
    assert g.start <= b.addr && End(arch, b) <= g.Limit() by { TilesOrderedAll(arch, g, bs); }
    forall i | b.addr + HeaderSize(arch) - g.start <= i < End(arch, b) - g.start ensures m[i] == n[i] {
      if m[i] != n[i] {
        var t :| t in ts && InHeader(arch, t, g.start + i);
        var k :| 0 <= k < |bs| && bs[k].addr == t;
        if k < j { TilesOrdered(arch, g, bs, k, j); } else if j < k { TilesOrdered(arch, g, bs, j, k); }
        assert false;
      }
    }
  }

  // ----- the list in memory -----

  /** What the header of block i must hold. */
  function Expect(bs: seq<Block>, i: nat): Hdr
    requires i < |bs|
  {
    Hdr(HEAP_MAGIC, bs[i].size, if bs[i].used then 1 else 0,
        if i + 1 < |bs| then bs[i + 1].addr else 0,
        if i > 0 then bs[i - 1].addr else 0)
  }

  ghost predicate Holds(hs: map<nat, Hdr>, bs: seq<Block>, i: nat)
    requires i < |bs|
  {
    bs[i].addr in hs && hs[bs[i].addr] == Expect(bs, i)
  }

  /** Every block of the list has its header, next and prev linking neighbours. */
  ghost predicate Linked(hs: map<nat, Hdr>, bs: seq<Block>)
  {
    forall i: nat :: i < |bs| ==> Holds(hs, bs, i)
  }

  /** Blocks of one list are far enough apart for their headers. */
  lemma BlocksApart(arch: Arch, g: Region, bs: seq<Block>)
    requires Tiles(arch, g, bs)
    ensures forall i, j :: 0 <= i < |bs| && 0 <= j < |bs| && i != j ==> Apart(arch, bs[i].addr, bs[j].addr)
  {
    TilesOrderedAll(arch, g, bs);
    forall i, j | 0 <= i < |bs| && 0 <= j < |bs| && i != j ensures Apart(arch, bs[i].addr, bs[j].addr) {
      if i < j { assert End(arch, bs[i]) <= bs[j].addr; } else { assert End(arch, bs[j]) <= bs[i].addr; }
    }
  }

  /** Marking block i used or free. */
  lemma LinkedMark(arch: Arch, g: Region, hs: map<nat, Hdr>, ks: map<nat, Hdr>, bs: seq<Block>, i: nat, used: bool)
    requires Tiles(arch, g, bs) && Linked(hs, bs) && i < |bs|
    requires Keeps(arch, hs, ks, {bs[i].addr})
    requires bs[i].addr in ks && bs[i].addr in hs
    requires ks[bs[i].addr] == hs[bs[i].addr].(used := if used then 1 else 0)
    ensures Tiles(arch, g, bs[i := bs[i].(used := used)])
    ensures Linked(ks, bs[i := bs[i].(used := used)])
  {
    var t := bs[i := bs[i].(used := used)];
    BlocksApart(arch, g, bs);
    TilesMark(arch, g, bs, i, used);
    assert Holds(hs, bs, i);
    forall j: nat | j < |t| ensures Holds(ks, t, j) {
      assert Holds(hs, bs, j);
    }
  }

  /** Cutting block i in two: the new header is written inside its payload. */
  lemma LinkedSplit(arch: Arch, g: Region, hs: map<nat, Hdr>, ks: map<nat, Hdr>, bs: seq<Block>, t: seq<Block>, i: nat)
    requires Linked(hs, bs) && i < |bs|
    requires Tiles(arch, g, t) && |t| == |bs| + 1
    requires forall j :: 0 <= j < i ==> t[j] == bs[j]
    requires forall j :: i + 2 <= j < |t| ==> t[j] == bs[j - 1]
    requires t[i].addr == bs[i].addr
    requires Keeps(arch, hs, ks, {t[i].addr, t[i + 1].addr} + (if i + 2 < |t| then {t[i + 2].addr} else {}))
    requires forall j: nat :: i <= j < i + 3 && j < |t| ==> Holds(ks, t, j)
    ensures Linked(ks, t)
  {
    BlocksApart(arch, g, t);
    forall j: nat | j < |t| ensures Holds(ks, t, j) {
      if j < i {
        assert Holds(hs, bs, j);
      } else if j > i + 2 {
        assert bs[j - 1] == t[j];
        assert Holds(hs, bs, j - 1);
      }
    }
  }

  /** Block l swallowing block l + 1: size and next of l change, and prev of the block after. */
  lemma LinkedMerge(arch: Arch, g: Region, hs: map<nat, Hdr>, ks: map<nat, Hdr>, bs: seq<Block>, t: seq<Block>, l: nat)
    requires Linked(hs, bs) && l + 1 < |bs|
    requires Tiles(arch, g, t) && |t| == |bs| - 1
    requires forall j :: 0 <= j < l ==> t[j] == bs[j]
    requires forall j :: l < j < |t| ==> t[j] == bs[j + 1]
    requires t[l].addr == bs[l].addr
    requires Keeps(arch, hs, ks, {t[l].addr} + (if l + 1 < |t| then {t[l + 1].addr} else {}))
    requires forall j: nat :: l <= j < l + 2 && j < |t| ==> Holds(ks, t, j)
    ensures Linked(ks, t)
  {
    BlocksApart(arch, g, t);
    forall j: nat | j < |t| ensures Holds(ks, t, j) {
      if j < l {
        assert Holds(hs, bs, j);
      } else if j > l + 1 {
        assert bs[j + 1] == t[j];
        assert Holds(hs, bs, j + 1);
      }
    }
  }

  /** m and n differ only in the payload of b. */
  ghost predicate OnlyPayload(arch: Arch, g: Region, m: seq<byte>, n: seq<byte>, b: Block)
  {
    && |m| == |n| == g.total
    && forall i :: 0 <= i < g.total && !(b.addr + HeaderSize(arch) <= g.start + i < End(arch, b)) ==> m[i] == n[i]
  }

  /** Writing into the payload of one block leaves all headers and all other payloads alone. */
  lemma PayloadWriteLinked(arch: Arch, g: Region, m: seq<byte>, n: seq<byte>, bs: seq<Block>, k: nat)
    requires Tiles(arch, g, bs) && k < |bs| && OnlyPayload(arch, g, m, n, bs[k])
    requires Linked(Headers(arch, g, m), bs)
    ensures Linked(Headers(arch, g, n), bs)
  {
    hide HdrAt;
    TilesOrderedAll(arch, g, bs);
    forall j: nat | j < |bs| ensures Holds(Headers(arch, g, n), bs, j) {
      assert Holds(Headers(arch, g, m), bs, j);
      if j < k { assert End(arch, bs[j]) <= bs[k].addr; } else if k < j { assert End(arch, bs[k]) <= bs[j].addr; }
      HdrSame(arch, m, n, bs[j].addr - g.start);
    }
  }

  lemma PayloadWrite(arch: Arch, g: Region, m: seq<byte>, n: seq<byte>, bs: seq<Block>, b: Block)
    requires Tiles(arch, g, bs) && b in bs && OnlyPayload(arch, g, m, n, b)
    requires Linked(Headers(arch, g, m), bs)
    ensures Linked(Headers(arch, g, n), bs)
    ensures forall c :: c in bs && c != b ==> SamePayload(arch, g, m, n, c)
  {
    hide HdrAt, Linked;
    var k :| 0 <= k < |bs| && bs[k] == b;
    PayloadWriteLinked(arch, g, m, n, bs, k);
    TilesOrderedAll(arch, g, bs);
    forall c | c in bs && c != b ensures SamePayload(arch, g, m, n, c) {
      var j :| 0 <= j < |bs| && bs[j] == c;
      if j < k { assert End(arch, bs[j]) <= bs[k].addr; } else { assert End(arch, bs[k]) <= bs[j].addr; }
    }
  }
}
