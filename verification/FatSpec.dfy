/**
 A FAT32 volume as a mathematical object: the file allocation table as a function on
 cluster numbers, a cluster chain as a byte stream, and a file as a prefix of that stream.
 */
module FatSpec {

  import opened Bytes
  import opened Sequences
  import opened Arithmetic

  const SECTOR: nat := 512
  const FAT_EOC: nat := 0x0FFF_FFF8

  /** The disk: sector contents by 32-bit block address. */
  type Disk = nat -> seq<byte>

  ghost predicate DiskOk(disk: Disk)
  {
    forall lba: nat :: |disk(lba)| == SECTOR
  }

  /** The fields of a mounted volume that reading uses. */
  datatype Vol = Vol(fatLba: nat, dataLba: nat, spc: nat) {
    /** 32-bit block addresses and at least one sector per cluster, which the BPB stores in one byte. */
    predicate Ok() { fatLba < WORD32 && dataLba < WORD32 && 1 <= spc <= 255 }
    function Bpc(): (b: nat)
      ensures Ok() ==> SECTOR <= b <= 255 * SECTOR
    {
      spc * SECTOR
    }
  }

  /** The FAT entry of a cluster, in 32-bit arithmetic. */
  function Next(v: Vol, disk: Disk, cluster: nat): (c: nat)
    ensures c < 0x1000_0000
  {
    var fatOffset := cluster * 4 % WORD32;
    var sector := disk((v.fatLba + fatOffset / SECTOR) % WORD32);
    var off := fatOffset % SECTOR;
    if off + 4 <= |sector| then Le(sector[off..off + 4]) % 0x1000_0000 else 0
  }

  /** First block of a cluster, in 32-bit arithmetic. */
  function ClusterLba(v: Vol, cluster: nat): (l: nat)
    ensures l < WORD32
  {
    (v.dataLba + (cluster - 2) * v.spc) % WORD32
  }

  /** Cluster k of the chain that starts at start. */
  function Nth(v: Vol, disk: Disk, start: nat, k: nat): nat
  {
    if k == 0 then start else Next(v, disk, Nth(v, disk, start, k - 1))
  }

  /** Length of the chain, counted up to a limit: clusters before the first end mark. */
  function ChainLen(v: Vol, disk: Disk, start: nat, limit: nat): (n: nat)
    ensures n <= limit
    ensures forall k :: 0 <= k < n ==> Nth(v, disk, start, k) < FAT_EOC
    ensures n < limit ==> Nth(v, disk, start, n) >= FAT_EOC
  {
    if limit == 0 then 0
    else
      var n := ChainLen(v, disk, start, limit - 1);
      if n == limit - 1 && Nth(v, disk, start, n) < FAT_EOC then limit else n
  }

  /** Byte p of a cluster. */
  function ClusterByte(v: Vol, disk: Disk, cluster: nat, p: nat): byte
  {
    var sector := disk((ClusterLba(v, cluster) + p / SECTOR) % WORD32);
    if p % SECTOR < |sector| then sector[p % SECTOR] else 0
  }

  function ClusterBytes(v: Vol, disk: Disk, cluster: nat, lo: nat, n: nat): (s: seq<byte>)
    ensures |s| == n && forall i :: 0 <= i < n ==> s[i] == ClusterByte(v, disk, cluster, lo + i)
  {
    seq<byte>(n, i requires 0 <= i < n => ClusterByte(v, disk, cluster, lo + i))
  }

  /** The cluster of the chain that holds stream position p, and the offset in it. */
  function ClusterOf(v: Vol, p: nat): nat
    requires v.Ok()
  {
    Quotient(p, v.Bpc())
  }

  function OffsetIn(v: Vol, p: nat): (o: nat)
    requires v.Ok()
    ensures o < v.Bpc() && p == ClusterOf(v, p) * v.Bpc() + o
  {
    p - ClusterOf(v, p) * v.Bpc()
  }

  /** The quotient q of a by b: q * b <= a < (q + 1) * b. */
  function Quotient(a: nat, b: nat): (q: nat)
    requires b > 0
    ensures q * b <= a < q * b + b
  {
    var q := a / b;
    assert a == b * q + a % b;
    assert b * q == q * b;
    q
  }

  lemma QuotientUnique(a: nat, b: nat, q: nat)
    requires b > 0 && q * b <= a < q * b + b
    ensures Quotient(a, b) == q
  {
    var p := Quotient(a, b);
    assert p < q ==> (p + 1) * b <= q * b;
    assert q < p ==> (q + 1) * b <= p * b;
  }

  /** Byte p of the concatenation of the clusters of a chain. */
  function ChainByte(v: Vol, disk: Disk, start: nat, p: nat): byte
    requires v.Ok()
  {
    ClusterByte(v, disk, Nth(v, disk, start, ClusterOf(v, p)), OffsetIn(v, p))
  }

  function ChainBytes(v: Vol, disk: Disk, start: nat, lo: nat, n: nat): (s: seq<byte>)
    requires v.Ok()
    ensures |s| == n && forall i :: 0 <= i < n ==> s[i] == ChainByte(v, disk, start, lo + i)
  {
    seq<byte>(n, i requires 0 <= i < n => ChainByte(v, disk, start, lo + i))
  }

  lemma ChainBytesConcat(v: Vol, disk: Disk, start: nat, lo: nat, a: nat, b: nat)
    requires v.Ok()
    ensures ChainBytes(v, disk, start, lo, a) + ChainBytes(v, disk, start, lo + a, b)
            == ChainBytes(v, disk, start, lo, a + b)
  {
    hide ChainByte;
    var s, t := ChainBytes(v, disk, start, lo, a), ChainBytes(v, disk, start, lo + a, b);
    forall i | 0 <= i < a + b ensures (s + t)[i] == ChainByte(v, disk, start, lo + i) {
      if i >= a { assert t[i - a] == ChainByte(v, disk, start, lo + a + (i - a)); }
    }
  }

  /** A stretch of the stream that stays in one cluster. */
  lemma ChainInCluster(v: Vol, disk: Disk, start: nat, pos: nat, n: nat)
    requires v.Ok() && OffsetIn(v, pos) + n <= v.Bpc()
    ensures ChainBytes(v, disk, start, pos, n)
            == ClusterBytes(v, disk, Nth(v, disk, start, ClusterOf(v, pos)), OffsetIn(v, pos), n)
  {
    hide ClusterByte, Nth, ClusterOf, OffsetIn;
    var s := ChainBytes(v, disk, start, pos, n);
    var t := ClusterBytes(v, disk, Nth(v, disk, start, ClusterOf(v, pos)), OffsetIn(v, pos), n);
    forall i | 0 <= i < n ensures s[i] == t[i] {
      SameCluster(v, pos, i);
    }
  }

  lemma SameCluster(v: Vol, pos: nat, i: nat)
    requires v.Ok() && OffsetIn(v, pos) + i < v.Bpc()
    ensures ClusterOf(v, pos + i) == ClusterOf(v, pos) && OffsetIn(v, pos + i) == OffsetIn(v, pos) + i
  {
    QuotientUnique(pos + i, v.Bpc(), ClusterOf(v, pos));
  }

  datatype File = File(start: nat, size: nat)

  /** Clusters needed for the size of a file. */
  function Needed(v: Vol, f: File): (n: nat)
    requires v.Ok()
    ensures n * v.Bpc() >= f.size && (n > 0 ==> (n - 1) * v.Bpc() < f.size)
  {
    var n := Quotient(f.size + v.Bpc() - 1, v.Bpc());
    assert (n - 1) * v.Bpc() == n * v.Bpc() - v.Bpc();
    n
  }

  /** How many bytes a file can deliver: its size, or what its chain holds if that is less. */
  function Length(v: Vol, disk: Disk, f: File): (n: nat)
    requires v.Ok()
    ensures n <= f.size
  {
    var held := ChainLen(v, disk, f.start, Needed(v, f)) * v.Bpc();
    if held < f.size then held else f.size
  }

  /** The bytes of a file. */
  function Content(v: Vol, disk: Disk, f: File): (s: seq<byte>)
    requires v.Ok()
    ensures |s| == Length(v, disk, f)
  {
    ChainBytes(v, disk, f.start, 0, Length(v, disk, f))
  }

  /** Nothing lies behind the first end mark. */
  lemma LengthAtMost(v: Vol, disk: Disk, f: File, k: nat)
    requires v.Ok() && Nth(v, disk, f.start, k) >= FAT_EOC
    ensures Length(v, disk, f) <= k * v.Bpc()
  {
    hide Nth;
    var n := ChainLen(v, disk, f.start, Needed(v, f));
    assert n <= k;
    TimesMono(k, n, v.Bpc());
  }

  /** Everything up to the end of a cluster of the chain is there, as far as the size goes. */
  lemma LengthAtLeast(v: Vol, disk: Disk, f: File, k: nat, p: nat)
    requires v.Ok() && p <= f.size && p <= (k + 1) * v.Bpc()
    requires forall i :: 0 <= i <= k ==> Nth(v, disk, f.start, i) < FAT_EOC
    ensures p <= Length(v, disk, f)
  {
    hide Nth;
    var n := ChainLen(v, disk, f.start, Needed(v, f));
    if n < Needed(v, f) { TimesMono(n, k + 1, v.Bpc()); }
  }

  /** A slice of the content is a stretch of the stream. */
  lemma ContentSlice(v: Vol, disk: Disk, f: File, off: nat, size: nat, m: nat)
    requires v.Ok() && m <= size
    requires m > 0 ==> off + m <= Length(v, disk, f)
    requires m < size ==> Length(v, disk, f) <= off + m
    ensures Slice(Content(v, disk, f), off, size) == ChainBytes(v, disk, f.start, off, m)
  {
    hide ChainByte, Length;
    var s, t := Slice(Content(v, disk, f), off, size), ChainBytes(v, disk, f.start, off, m);
    assert |s| == m;
    forall i | 0 <= i < m ensures s[i] == t[i] {
    }
  }

  /** n elements of s from off on, as far as s has them. */
  function Slice<T>(s: seq<T>, off: nat, n: nat): (r: seq<T>)
    ensures |r| <= n
  {
    if off >= |s| then []
    else if off + n <= |s| then s[off..off + n]
    else s[off..]
  }

  /** Two consecutive reads are one read. */
  lemma SliceSlice<T>(s: seq<T>, off: nat, a: nat, b: nat)
    ensures Slice(s, off, a) + Slice(s, off + a, b) == Slice(s, off, a + b)
  {
  }

  lemma SliceNone<T>(s: seq<T>, off: nat)
    ensures Slice(s, off, 0) == []
  {
  }

  /** Reading a range in any consecutive pieces gives the same bytes as one read. */
  lemma {:induction false} Pieces<T>(s: seq<T>, off: nat, sizes: seq<nat>)
    ensures InPieces(s, off, sizes) == Slice(s, off, Sum(sizes))
    decreases |sizes|
  {
    hide Slice;
    if sizes == [] {
      SliceNone(s, off);
    } else {
      var front := sizes[..|sizes| - 1];
      Pieces(s, off, front);
      SliceSlice(s, off, Sum(front), sizes[|sizes| - 1]);
    }
  }

  /** Consecutive reads of the given sizes. */
  function InPieces<T>(s: seq<T>, off: nat, sizes: seq<nat>): seq<T>
    decreases |sizes|
  {
    if sizes == [] then []
    else
      var front := sizes[..|sizes| - 1];
      InPieces(s, off, front) + Slice(s, off + Sum(front), sizes[|sizes| - 1])
  }

  // ----- where the table and the clusters lie -----

  /** Byte k of the allocation table: 512 bytes to a sector, from the first sector of the table on. */
  function TableByte(v: Vol, disk: Disk, k: nat): int
  {
    var sector := disk((v.fatLba + k / 512) % WORD32);
    if k % 512 < |sector| then sector[k % 512] else 0
  }

  /** The link of cluster c is the 32-bit number at byte 4c of the table, least significant byte first, without its top 4 bits. */
  lemma LinkAt(v: Vol, disk: Disk, c: nat)
    requires DiskOk(disk) && c < 0x4000_0000
    ensures Next(v, disk, c) == (TableByte(v, disk, 4 * c) + 0x100 * TableByte(v, disk, 4 * c + 1)
                                 + 0x1_0000 * TableByte(v, disk, 4 * c + 2) + 0x100_0000 * TableByte(v, disk, 4 * c + 3)) % 0x1000_0000
  {
    hide Le, TableByte, Next;
    var sector, off := disk((v.fatLba + 4 * c / 512) % WORD32), 4 * c % 512;
    InSector(c, 0);
    NextRead(v, disk, c);
    var w := sector[off..off + 4];
    LeBytes(w);
    TableByteAt(v, disk, c, 0);
    TableByteAt(v, disk, c, 1);
    TableByteAt(v, disk, c, 2);
    TableByteAt(v, disk, c, 3);
  }

  lemma NextRead(v: Vol, disk: Disk, c: nat)
    requires DiskOk(disk) && c < 0x4000_0000 && 4 * c % 512 <= 508
    ensures Next(v, disk, c) == Le(disk((v.fatLba + 4 * c / 512) % WORD32)[4 * c % 512..4 * c % 512 + 4]) % 0x1000_0000
  {
    hide Le;
    NoWrap4(c);
  }

  lemma NoWrap4(c: nat)
    requires c < 0x4000_0000
    ensures c * 4 % WORD32 == 4 * c
  {
  }

  lemma TableByteAt(v: Vol, disk: Disk, c: nat, i: nat)
    requires DiskOk(disk) && i < 4
    ensures 4 * c % 512 <= 508 && TableByte(v, disk, 4 * c + i) == disk((v.fatLba + 4 * c / 512) % WORD32)[4 * c % 512 + i]
  {
    InSector(c, i);
  }

  lemma LeBytes(w: seq<byte>)
    requires |w| == 4
    ensures var a: int, b: int, c: int, d: int := w[0], w[1], w[2], w[3];
            Le(w) == a + 0x100 * b + 0x1_0000 * c + 0x100_0000 * d
  {
    assert w == [w[0], w[1], w[2], w[3]];
    LeFour(w[0], w[1], w[2], w[3]);
  }

  lemma InSector(c: nat, i: nat)
    requires i < 4
    ensures (4 * c + i) / 512 == 4 * c / 512 && (4 * c + i) % 512 == 4 * c % 512 + i && 4 * c % 512 <= 508
  {
    var q, r := c / 128, c % 128;
    assert c == 128 * q + r;
    Within512(4 * c + i, q, 4 * r + i);
    Within512(4 * c, q, 4 * r);
  }

  lemma Within512(x: nat, q: nat, s: nat)
    requires x == 512 * q + s && s < 512
    ensures x / 512 == q && x % 512 == s
  {
  }

  lemma LeFour(a: byte, b: byte, c: byte, d: byte)
    ensures Le([a, b, c, d]) == a + 256 * (b + 256 * (c + 256 * d))
  {
    assert Le([d]) == d by { assert [d][1..] == []; }
    assert Le([c, d]) == c + 256 * d by { assert [c, d][1..] == [d]; }
    assert Le([b, c, d]) == b + 256 * Le([c, d]) by { assert [b, c, d][1..] == [c, d]; }
    assert [a, b, c, d][1..] == [b, c, d];
  }

  /** Cluster 2 begins at the data area, and each cluster right behind the one before it. */
  lemma ClustersAdjoin(v: Vol, c: nat)
    requires v.Ok() && c >= 2
    ensures ClusterLba(v, 2) == v.dataLba
    ensures ClusterLba(v, c + 1) == (ClusterLba(v, c) + v.spc) % 0x1_0000_0000
  {
    var a := (c - 2) * v.spc;
    assert (c + 1 - 2) * v.spc == a + v.spc;
    WrapTwice(v.dataLba + a, v.spc);
  }

  lemma WrapTwice(a: int, b: nat)
    ensures (a + b) % WORD32 == (a % WORD32 + b) % WORD32
  {
  }
}
