/** The FAT32 reader: cluster-chain walking and sector copying through one shared sector buffer. */
module Fat32 {

  import opened Bytes
  import opened Arithmetic
  import opened FatSpec

  class Volume {
    const v: Vol
    const disk: Disk
    var sectorBuf: seq<byte>

    constructor (v: Vol, disk: Disk)
      ensures this.v == v && this.disk == disk
    {
      this.v, this.disk, this.sectorBuf := v, disk, [];
    }

    method ReadSector(lba: nat)
      modifies this`sectorBuf
      ensures sectorBuf == disk(lba)
    {
      sectorBuf := disk(lba);
    }

    method NextCluster(cluster: nat) returns (c: nat)
      requires DiskOk(disk)
      modifies this`sectorBuf
      ensures c == Next(v, disk, cluster)
    {
      var fatOffset := cluster * 4 % WORD32;
      var fatSec := (v.fatLba + fatOffset / SECTOR) % WORD32;
      var fatOff := fatOffset % SECTOR;
      ReadSector(fatSec);
      FourBytes(cluster);
      c := Le(sectorBuf[fatOff..fatOff + 4]) % 0x1000_0000;
    }

    /**
     The inner loop of fat32_read_file: chunk bytes of one cluster, sector by sector, behind the
     first at bytes of buf; nothing from limit on is touched.
     */
    method CopyFromCluster(cluster: nat, inCluster: nat, chunk: nat, buf: array<byte>, at: nat, ghost limit: nat)
      requires DiskOk(disk) && at + chunk <= limit <= buf.Length
      modifies this`sectorBuf, buf
      ensures buf[..at + chunk] == old(buf[..at]) + ClusterBytes(v, disk, cluster, inCluster, chunk)
      ensures buf[limit..] == old(buf[limit..])
    {
      hide ClusterBytes, ClusterByte, ClusterLba;
      var lba := ClusterLba(v, cluster);
      var secOff: nat, byteOff: nat, wrote: nat := inCluster / SECTOR, inCluster % SECTOR, 0;
      while wrote < chunk
        invariant wrote <= chunk && byteOff < SECTOR
        invariant wrote < chunk ==> secOff * SECTOR + byteOff == inCluster + wrote
        invariant buf[..at + wrote] == old(buf[..at]) + ClusterBytes(v, disk, cluster, inCluster, wrote)
        invariant buf[limit..] == old(buf[limit..])
        decreases chunk - wrote
      {
        ReadSector((lba + secOff) % WORD32);
        var take := SECTOR - byteOff;
        if take > chunk - wrote { take := chunk - wrote; }
        CopySector(cluster, secOff, byteOff, take, inCluster + wrote, buf, at + wrote, limit);
        ClusterBytesConcat(v, disk, cluster, inCluster, wrote, take);
        wrote := wrote + take;
        secOff := secOff + 1;
        byteOff := 0;
      }
    }

    /** The memcpy from the sector buffer, which holds sector sec of the cluster. */
    method CopySector(ghost cluster: nat, ghost sec: nat, off: nat, n: nat, ghost pos: nat, buf: array<byte>, at: nat, ghost limit: nat)
      requires DiskOk(disk) && sectorBuf == disk((ClusterLba(v, cluster) + sec) % WORD32)
      requires off + n <= SECTOR && pos == sec * SECTOR + off && at + n <= limit <= buf.Length
      modifies buf
      ensures buf[..at + n] == old(buf[..at]) + ClusterBytes(v, disk, cluster, pos, n)
      ensures buf[limit..] == old(buf[limit..])
    {
      hide ClusterBytes, ClusterByte, ClusterLba;
      SectorSlice(v, disk, cluster, sec, off, n, pos);
      Append(buf, at, sectorBuf[off..off + n], limit);
    }

    /** The first loop of fat32_read_file: walk skip clusters ahead; ok is false at an end mark. */
    method SkipClusters(start: nat, skip: nat) returns (ok: bool, cluster: nat)
      requires DiskOk(disk)
      modifies this`sectorBuf
      ensures ok ==> cluster == Nth(v, disk, start, skip)
      ensures ok ==> forall k :: 1 <= k <= skip ==> Nth(v, disk, start, k) < FAT_EOC
      ensures !ok ==> exists k :: 1 <= k <= skip && Nth(v, disk, start, k) >= FAT_EOC
    {
      hide Next;
      cluster := start;
      for i := 0 to skip
        invariant cluster == Nth(v, disk, start, i)
        invariant forall k :: 1 <= k <= i ==> Nth(v, disk, start, k) < FAT_EOC
      {
        cluster := NextCluster(cluster);
        assert cluster == Nth(v, disk, start, i + 1);
        if cluster >= FAT_EOC { return false, 0; }
      }
      return true, cluster;
    }

    /**
     fat32_read_file: the bytes from off on of the file's content, at most size of them. The one
     exception is a file whose first cluster is an end mark, read beyond its first cluster.
     */
    method ReadFile(f: File, off: nat, size: nat, buf: array<byte>) returns (n: nat)
      requires DiskOk(disk) && v.Ok() && f.start < WORD32 && f.size < WORD32
      requires off < WORD64 && size < WORD32 && size <= buf.Length
      modifies this`sectorBuf, buf
      ensures n <= size && buf[size..] == old(buf[size..])
      ensures f.start < FAT_EOC || off < v.Bpc() ==> buf[..n] == Slice(Content(v, disk, f), off, size)
      ensures f.start >= FAT_EOC && off >= v.Bpc() ==> Content(v, disk, f) == []
      ensures f.start >= FAT_EOC && off >= v.Bpc() ==>
                (n > 0 <==> off < f.size && size > 0
                            && forall k :: 1 <= k <= ClusterOf(v, off) ==> Nth(v, disk, f.start, k) < FAT_EOC)
    {
      hide Content, Length, Nth, ChainBytes, OffsetIn, ClusterOf;
      EndMarkEmpty(v, disk, f, off);
      if off >= f.size {
        NothingThere(v, disk, f, off, size);
        return 0;
      }
      var want := if off + size > f.size then f.size - off else size;
      var bpc := v.Bpc();
      var skip := ClusterOf(v, off);
      var ok, cluster := SkipClusters(f.start, skip);
      if !ok {
        SkippedPast(v, disk, f, off, size);
        return 0;
      }
      FirstOk(v, disk, f, off);
      n := ReadChain(f, off, want, cluster, buf, f.start < FAT_EOC || off < bpc);
      assert buf[size..] == buf[want..][size - want..] == old(buf[size..]);
      if f.start < FAT_EOC || off < bpc { ReadDone(v, disk, f, off, size, want, n); }
    }

    /** The second loop of fat32_read_file, from the cluster that holds position off. */
    method ReadChain(f: File, off: nat, want: nat, first: nat, buf: array<byte>, ghost good: bool) returns (readTotal: nat)
      requires DiskOk(disk) && v.Ok() && off + want <= f.size && want <= buf.Length
      requires first == Nth(v, disk, f.start, ClusterOf(v, off))
      requires good ==> forall k :: 0 <= k < ClusterOf(v, off) ==> Nth(v, disk, f.start, k) < FAT_EOC
      modifies this`sectorBuf, buf
      ensures readTotal <= want && buf[want..] == old(buf[want..])
      ensures buf[..readTotal] == ChainBytes(v, disk, f.start, off, readTotal)
      ensures readTotal > 0 <==> want > 0 && first < FAT_EOC
      ensures good && readTotal > 0 ==> off + readTotal <= Length(v, disk, f)
      ensures good && readTotal < want ==> Length(v, disk, f) <= ClusterOf(v, off + readTotal) * v.Bpc()
    {
      hide Content, Length, Nth, ChainBytes, ClusterBytes, OffsetIn, ClusterOf, Next, Vol.Bpc, Vol.Ok;
      var bpc := v.Bpc();
      var cluster, inCluster := first, OffsetIn(v, off);
      readTotal := 0;
      while readTotal < want && cluster < FAT_EOC
        invariant readTotal <= want
        invariant buf[..readTotal] == ChainBytes(v, disk, f.start, off, readTotal)
        invariant buf[want..] == old(buf[want..])
        invariant readTotal == 0 ==> cluster == first
        invariant readTotal > 0 ==> first < FAT_EOC
        invariant readTotal < want ==>
                    cluster == Nth(v, disk, f.start, ClusterOf(v, off + readTotal)) && inCluster == OffsetIn(v, off + readTotal)
        invariant good && readTotal < want ==>
                    forall k :: 0 <= k < ClusterOf(v, off + readTotal) ==> Nth(v, disk, f.start, k) < FAT_EOC
        invariant good && readTotal > 0 ==> off + readTotal <= Length(v, disk, f)
        decreases want - readTotal
      {
        var avail := bpc - inCluster;
        var chunk := if want - readTotal < avail then want - readTotal else avail;
        ChunkStep(v, disk, f, off + readTotal, chunk, good);
        CopyFromCluster(cluster, inCluster, chunk, buf, readTotal, want);
        ChainBytesConcat(v, disk, f.start, off, readTotal, chunk);
        readTotal := readTotal + chunk;
        inCluster := 0;
        cluster := NextCluster(cluster);
      }
      if good && readTotal < want { LengthAtMost(v, disk, f, ClusterOf(v, off + readTotal)); }
    }

    /**
     The loop of cat: reads of 63 bytes until one returns nothing go through the whole content, and
     each piece is printed up to its first zero byte.
     */
    method Cat(f: File) returns (printed: seq<byte>, ghost read: seq<byte>)
      requires DiskOk(disk) && v.Ok() && f.start < WORD32 && f.size < WORD32
      modifies this`sectorBuf
      ensures read == Content(v, disk, f) && printed == Shown(read)
    {
      hide Content, Length, Shown, UpToZero;
      var chunk := new byte[64];
      ghost var all := Content(v, disk, f);
      printed, read := [], [];
      var off := 0;
      EndMarkEmpty(v, disk, f, 0);
      assert all[0..] == all;
      while true
        invariant fresh(chunk) && off <= |all| && read == all[..off] && printed + Shown(all[off..]) == Shown(all)
        decreases |all| - off
      {
        var n := ReadFile(f, off, 63, chunk);
        CatStep(all, off, printed, chunk[..n]);
        if n == 0 {
          CatEnd(all, off, printed);
          break;
        }
        printed, read := printed + UpToZero(chunk[..n]), read + chunk[..n];
        off := off + n;
      }
    }
  }

  /** What printing a string shows of some bytes. */
  function UpToZero(s: seq<byte>): (r: seq<byte>)
    ensures |r| <= |s| && (|r| == |s| <==> 0 !in s) && r == s[..|r|]
  {
    if s == [] || s[0] == 0 then []
    else
      var r := UpToZero(s[1..]);
      assert s == [s[0]] + s[1..];
      [s[0]] + r
  }

  /** What cat shows of a file: pieces of 63 bytes, each up to its first zero byte. */
  function Shown(s: seq<byte>): seq<byte>
  {
    if s == [] then [] else UpToZero(Slice(s, 0, 63)) + Shown(s[|Slice(s, 0, 63)|..])
  }

  /** cat shows the file exactly when it holds no zero byte. */
  lemma {:induction false} ShownIff(s: seq<byte>)
    ensures |Shown(s)| <= |s| && (Shown(s) == s <==> |Shown(s)| == |s|) && (Shown(s) == s <==> 0 !in s)
    decreases |s|
  {
    if s != [] {
      var a := Slice(s, 0, 63);
      var b := s[|a|..];
      assert s == a + b;
      ShownIff(b);
    }
  }

  lemma ShownStep(s: seq<byte>)
    ensures var a := Slice(s, 0, 63);
            |a| <= |s| && Shown(s) == UpToZero(a) + Shown(s[|a|..]) && (s == [] ==> Shown(s) == [])
  {
    hide UpToZero;
    if s == [] { assert UpToZero([]) == []; }
  }

  /** One turn of cat: the piece read is shown, and nothing is left exactly when it is empty. */
  lemma CatStep(all: seq<byte>, off: nat, printed: seq<byte>, piece: seq<byte>)
    requires off <= |all| && printed + Shown(all[off..]) == Shown(all) && piece == Slice(all, off, 63)
    ensures off + |piece| <= |all| && all[..off] + piece == all[..off + |piece|]
    ensures (printed + UpToZero(piece)) + Shown(all[off + |piece|..]) == Shown(all)
  {
    hide Shown, UpToZero, Slice;
    SliceEnd(all, off, 63);
    ShownFrom(all, off, piece);
    Regroup(printed, Shown(all[off..]), UpToZero(piece), Shown(all[off + |piece|..]));
  }

  lemma ShownFrom(all: seq<byte>, off: nat, piece: seq<byte>)
    requires off <= |all| && piece == Slice(all, off, 63) && off + |piece| <= |all|
    ensures Shown(all[off..]) == UpToZero(piece) + Shown(all[off + |piece|..])
  {
    hide Shown, UpToZero, Slice;
    SliceTail(all, off, 63);
    ShownStep(all[off..]);
  }

  lemma Regroup<T>(a: seq<T>, w: seq<T>, u: seq<T>, r: seq<T>)
    requires w == u + r
    ensures (a + u) + r == a + w
  {
  }

  /** When nothing was read, everything has been. */
  lemma CatEnd(all: seq<byte>, off: nat, printed: seq<byte>)
    requires off <= |all| && printed + Shown(all[off..]) == Shown(all) && Slice(all, off, 63) == []
    ensures off == |all| && printed == Shown(all)
  {
    hide UpToZero;
    SliceEnd(all, off, 63);
    assert all[off..] == [];
  }

  lemma SliceTail<T>(s: seq<T>, off: nat, n: nat)
    requires off <= |s|
    ensures var r := Slice(s, off, n);
            Slice(s[off..], 0, n) == r && |r| <= |s| - off && s[off..][|r|..] == s[off + |r|..]
  {
  }

  lemma SliceEnd<T>(s: seq<T>, off: nat, n: nat)
    requires off <= |s| && n > 0
    ensures var r := Slice(s, off, n); off + |r| <= |s| && s[..off] + r == s[..off + |r|] && (r == [] <==> off == |s|)
  {
  }

  /** A chain that starts with an end mark holds nothing; offsets past bpc reach its second cluster. */
  lemma EndMarkEmpty(v: Vol, disk: Disk, f: File, off: nat)
    requires v.Ok()
    ensures f.start >= FAT_EOC ==> Content(v, disk, f) == []
    ensures off >= v.Bpc() ==> ClusterOf(v, off) >= 1
  {
    if f.start >= FAT_EOC { LengthAtMost(v, disk, f, 0); }
    if off >= v.Bpc() && ClusterOf(v, off) == 0 { OffsetSplits(v, off); }
  }

  lemma NothingThere(v: Vol, disk: Disk, f: File, off: nat, size: nat)
    requires v.Ok() && off >= f.size
    ensures Slice(Content(v, disk, f), off, size) == []
  {
  }

  lemma SkippedPast(v: Vol, disk: Disk, f: File, off: nat, size: nat)
    requires v.Ok() && exists k :: 1 <= k <= ClusterOf(v, off) && Nth(v, disk, f.start, k) >= FAT_EOC
    ensures Slice(Content(v, disk, f), off, size) == []
  {
    hide Nth, Length, ClusterOf;
    var k :| 1 <= k <= ClusterOf(v, off) && Nth(v, disk, f.start, k) >= FAT_EOC;
    LengthAtMost(v, disk, f, k);
    TimesMono(ClusterOf(v, off), k, v.Bpc());
    OffsetSplits(v, off);
  }

  lemma OffsetSplits(v: Vol, p: nat)
    requires v.Ok()
    ensures ClusterOf(v, p) * v.Bpc() <= p < (ClusterOf(v, p) + 1) * v.Bpc()
  {
  }

  lemma FirstOk(v: Vol, disk: Disk, f: File, off: nat)
    requires v.Ok() && forall k :: 1 <= k <= ClusterOf(v, off) ==> Nth(v, disk, f.start, k) < FAT_EOC
    ensures f.start < FAT_EOC || off < v.Bpc() ==>
              forall k :: 0 <= k < ClusterOf(v, off) ==> Nth(v, disk, f.start, k) < FAT_EOC
  {
    if off < v.Bpc() { QuotientUnique(off, v.Bpc(), 0); }
  }

  /** One chunk of a read: the bytes of one cluster, and where the read goes on. */
  lemma ChunkStep(v: Vol, disk: Disk, f: File, pos: nat, chunk: nat, good: bool)
    requires v.Ok() && chunk <= v.Bpc() - OffsetIn(v, pos) && pos + chunk <= f.size
    requires Nth(v, disk, f.start, ClusterOf(v, pos)) < FAT_EOC
    requires good ==> forall k :: 0 <= k < ClusterOf(v, pos) ==> Nth(v, disk, f.start, k) < FAT_EOC
    ensures ChainBytes(v, disk, f.start, pos, chunk)
            == ClusterBytes(v, disk, Nth(v, disk, f.start, ClusterOf(v, pos)), OffsetIn(v, pos), chunk)
    ensures Next(v, disk, Nth(v, disk, f.start, ClusterOf(v, pos))) == Nth(v, disk, f.start, ClusterOf(v, pos) + 1)
    ensures chunk == v.Bpc() - OffsetIn(v, pos) ==> ClusterOf(v, pos + chunk) == ClusterOf(v, pos) + 1 && OffsetIn(v, pos + chunk) == 0
    ensures good ==> pos + chunk <= Length(v, disk, f)
  {
    hide Length, ClusterBytes, ChainBytes;
    var k := ClusterOf(v, pos);
    ChainInCluster(v, disk, f.start, pos, chunk);
    assert (k + 1) * v.Bpc() == k * v.Bpc() + v.Bpc();
    if chunk == v.Bpc() - OffsetIn(v, pos) { QuotientUnique(pos + chunk, v.Bpc(), k + 1); }
    if good { LengthAtLeast(v, disk, f, k, pos + chunk); }
  }

  lemma ReadDone(v: Vol, disk: Disk, f: File, off: nat, size: nat, want: nat, n: nat)
    requires v.Ok() && off < f.size && want == (if off + size > f.size then f.size - off else size) && n <= want
    requires n > 0 ==> off + n <= Length(v, disk, f)
    requires n < want ==> Length(v, disk, f) <= ClusterOf(v, off + n) * v.Bpc()
    ensures Slice(Content(v, disk, f), off, size) == ChainBytes(v, disk, f.start, off, n)
  {
    OffsetSplits(v, off + n);
    ContentSlice(v, disk, f, off, size, n);
  }

  /** A FAT entry never crosses a sector. */
  lemma FourBytes(cluster: nat)
    ensures cluster * 4 % WORD32 % SECTOR + 4 <= SECTOR
  {
    assert cluster * 4 % WORD32 % 4 == 0;
  }

  lemma ClusterBytesConcat(v: Vol, disk: Disk, cluster: nat, lo: nat, a: nat, b: nat)
    ensures ClusterBytes(v, disk, cluster, lo, a) + ClusterBytes(v, disk, cluster, lo + a, b)
            == ClusterBytes(v, disk, cluster, lo, a + b)
  {
    hide ClusterByte;
    var s, t := ClusterBytes(v, disk, cluster, lo, a), ClusterBytes(v, disk, cluster, lo + a, b);
    forall i | 0 <= i < a + b ensures (s + t)[i] == ClusterByte(v, disk, cluster, lo + i) {
      if i >= a { assert t[i - a] == ClusterByte(v, disk, cluster, lo + a + (i - a)); }
    }
  }

  /** Part of one sector is the matching part of the cluster. */
  lemma SectorSlice(v: Vol, disk: Disk, cluster: nat, sec: nat, off: nat, n: nat, p: nat)
    requires DiskOk(disk) && off + n <= SECTOR && p == sec * SECTOR + off
    ensures disk((ClusterLba(v, cluster) + sec) % WORD32)[off..off + n] == ClusterBytes(v, disk, cluster, p, n)
  {
    var sector := disk((ClusterLba(v, cluster) + sec) % WORD32);
    var s, t := sector[off..off + n], ClusterBytes(v, disk, cluster, p, n);
    forall i | 0 <= i < n ensures s[i] == t[i] {
      assert (p + i) / SECTOR == sec && (p + i) % SECTOR == off + i;
    }
  }

  // ----- a file that starts with an end mark -----

  function ZeroSector(): (s: seq<byte>)
    ensures |s| == SECTOR && forall i :: 0 <= i < SECTOR ==> s[i] == 0
  {
    seq(SECTOR, i => 0)
  }

  function ZeroDisk(): Disk { (lba: nat) => ZeroSector() }

  /** On a disk of zeros a file that starts with an end mark is empty and yields a byte of its second cluster. */
  method EndMarkYields(v: Vol) returns (n: nat)
    requires v.Ok()
    ensures n == 1 && Content(v, ZeroDisk(), File(0x0FFF_FFF8, v.Bpc() + 1)) == []
  {
    hide Content, Nth;
    var vol := new Volume(v, ZeroDisk());
    var buf := new byte[1];
    SecondCluster(v);
    n := vol.ReadFile(File(FAT_EOC, v.Bpc() + 1), v.Bpc(), 1, buf);
  }

  lemma SecondCluster(v: Vol)
    requires v.Ok()
    ensures DiskOk(ZeroDisk()) && ClusterOf(v, v.Bpc()) == 1 && Nth(v, ZeroDisk(), FAT_EOC, 1) == 0
  {
    QuotientUnique(v.Bpc(), v.Bpc(), 1);
    FourBytes(FAT_EOC);
    var sector, off := ZeroSector(), FAT_EOC * 4 % WORD32 % SECTOR;
    assert Nth(v, ZeroDisk(), FAT_EOC, 0) == FAT_EOC;
    ZeroWord(sector[off..off + 4]);
  }

  lemma {:induction false} ZeroWord(w: seq<byte>)
    requires forall i :: 0 <= i < |w| ==> w[i] == 0
    ensures Le(w) == 0
  {
    if w != [] { ZeroWord(w[1..]); }
  }

  /** The mark of a bad cluster is no end mark: a file that starts with it is read from a cluster of that number. */
  method BadMarkRead(v: Vol) returns (n: nat)
    requires v.Ok()
    ensures n == 1 && |Content(v, ZeroDisk(), File(0x0FFF_FFF7, 1))| == 1
  {
    hide Content, Length;
    var vol := new Volume(v, ZeroDisk());
    var buf := new byte[1];
    LengthAtLeast(v, ZeroDisk(), File(0x0FFF_FFF7, 1), 0, 1);
    OneByteLong(v, ZeroDisk(), File(0x0FFF_FFF7, 1));
    n := vol.ReadFile(File(0x0FFF_FFF7, 1), 0, 1, buf);
  }

  lemma OneByteLong(v: Vol, disk: Disk, f: File)
    requires v.Ok() && f.size == 1 && Length(v, disk, f) >= 1
    ensures |Content(v, disk, f)| == 1
  {
  }
}
