/** Loading a FAT32 directory: cluster, sector and entry loops with early exit and a growing array. */
module FatDir {

  import opened Bytes
  import opened FatSpec
  import opened FatNames
  import opened Fat32

  // ----- the entries of a directory -----

  /** The entries of a sector from entry i on. */
  function EntriesFrom(sector: seq<byte>, i: nat): (es: seq<Entry>)
    requires |sector| == SECTOR && i <= 16
    ensures |es| == 16 - i
    decreases 16 - i
  {
    if i == 16 then [] else [sector[ENTRY * i..ENTRY * i + ENTRY]] + EntriesFrom(sector, i + 1)
  }

  function SectorAt(v: Vol, disk: Disk, cluster: nat, s: nat): seq<byte>
  {
    disk((ClusterLba(v, cluster) + s) % WORD32)
  }

  /** The entries of the first n sectors of a cluster. */
  ghost function ClusterEntries(v: Vol, disk: Disk, cluster: nat, n: nat): seq<Entry>
    requires DiskOk(disk)
  {
    if n == 0 then []
    else ClusterEntries(v, disk, cluster, n - 1) + EntriesFrom(SectorAt(v, disk, cluster, n - 1), 0)
  }

  /** The entries of the first n clusters of a chain. */
  ghost function DirEntries(v: Vol, disk: Disk, start: nat, n: nat): seq<Entry>
    requires DiskOk(disk)
  {
    if n == 0 then []
    else DirEntries(v, disk, start, n - 1) + ClusterEntries(v, disk, Nth(v, disk, start, n - 1), v.spc)
  }

  // ----- a parse that can be resumed -----

  /** What reading some entries gives: the nodes made, the long-name entries pending, and whether the end was met. */
  datatype Scan = Scan(made: seq<Node>, lfns: seq<Entry>, done: bool)

  function ScanAll(es: seq<Entry>, lfns: seq<Entry>): Scan
  {
    if es == [] then Scan([], lfns, false)
    else if es[0][0] == 0 then Scan([], lfns, true)
    else
      var x := Handle(es[0], lfns);
      var r := ScanAll(es[1..], x.lfns);
      Scan(x.made + r.made, r.lfns, r.done)
  }

  function Then(a: Scan, b: Scan): Scan
  {
    Scan(a.made + b.made, b.lfns, b.done)
  }

  lemma {:induction false} ScanConcat(a: seq<Entry>, b: seq<Entry>, lfns: seq<Entry>)
    ensures var x := ScanAll(a, lfns);
            ScanAll(a + b, lfns) == if x.done then x else Then(x, ScanAll(b, x.lfns))
    decreases |a|
  {
    hide Handle;
    if a == [] {
      assert a + b == b;
    } else if a[0][0] != 0 {
      assert (a + b)[1..] == a[1..] + b;
      ScanConcat(a[1..], b, Handle(a[0], lfns).lfns);
    }
  }

  lemma {:induction false} ScanParses(es: seq<Entry>, lfns: seq<Entry>)
    ensures ScanAll(es, lfns).made == Parse(es, lfns)
    decreases |es|
  {
    hide Handle;
    if es != [] && es[0][0] != 0 { ScanParses(es[1..], Handle(es[0], lfns).lfns); }
  }

  /** A growing array of nodes: capacity 8 at first, then doubled. */
  class NodeList {
    var items: array<Node>
    var count: nat
    var cap: nat

    ghost predicate Valid()
      reads this
    {
      count <= cap && cap == items.Length
    }

    ghost function Contents(): seq<Node>
      requires Valid()
      reads this, items
    {
      items[..count]
    }

    constructor ()
      ensures Valid() && Contents() == [] && fresh(items)
    {
      items := new Node[0];
      count, cap := 0, 0;
    }

    method Push(x: Node)
      requires Valid()
      modifies this, items
      ensures Valid() && Contents() == old(Contents()) + [x]
      ensures items == old(items) || fresh(items)
    {
      if count >= cap {
        cap := if cap != 0 then cap * 2 else 8;
        var grown := new Node[cap];
        for i := 0 to count
          invariant cap == grown.Length && count < cap && fresh(grown) && count <= items.Length
          invariant items == old(items) && count == old(count) && items[..] == old(items[..])
          invariant grown[..i] == items[..i]
        {
          grown[i] := items[i];
        }
        items := grown;
      }
      items[count] := x;
      count := count + 1;
    }
  }

  // ----- names into a 256-byte buffer -----

  /** One of the three loops of parse_lfn over a run of units. */
  method TakeUnits(us: seq<nat>, out: array<byte>, at: nat) returns (pos: nat)
    requires at <= MAX_NAME && out.Length == 256
    modifies out
    ensures pos == at + |Take(us, MAX_NAME - at)|
    ensures out[..pos] == old(out[..at]) + Take(us, MAX_NAME - at)
  {
    pos := at;
    var j := 0;
    while j < |us| && pos < MAX_NAME && us[j] != 0 && us[j] != 0xFFFF
      invariant j <= |us| && at <= pos <= MAX_NAME
      invariant out[..pos] + Take(us[j..], MAX_NAME - pos) == old(out[..at]) + Take(us, MAX_NAME - at)
      decreases |us| - j
    {
      ghost var before := out[..pos];
      out[pos] := us[j] % 256;
      assert us[j..][1..] == us[j + 1..];
      assert out[..pos + 1] == before + [us[j] % 256];
      assert Take(us[j..], MAX_NAME - pos) == [us[j] % 256] + Take(us[j + 1..], MAX_NAME - (pos + 1));
      pos := pos + 1;
      j := j + 1;
    }
    assert Take(us[j..], MAX_NAME - pos) == [];
  }

  /** The three loops of parse_lfn over one entry. */
  method TakePart(l: Entry, out: array<byte>, at: nat) returns (pos: nat)
    requires at <= MAX_NAME && out.Length == 256
    modifies out
    ensures pos == at + |Part(l, MAX_NAME - at)| && out[..pos] == old(out[..at]) + Part(l, MAX_NAME - at)
  {
    hide Take, Units;
    ghost var a := Take(Units(l, 1, 5), MAX_NAME - at);
    ghost var b := Take(Units(l, 14, 6), MAX_NAME - at - |a|);
    pos := TakeUnits(Units(l, 1, 5), out, at);
    pos := TakeUnits(Units(l, 14, 6), out, pos);
    assert out[..pos] == old(out[..at]) + (a + b);
    pos := TakeUnits(Units(l, 28, 2), out, pos);
  }

  /** parse_lfn: the long name and a terminating zero. */
  method ParseLfn(lfns: seq<Entry>, out: array<byte>) returns (pos: nat)
    requires out.Length == 256
    modifies out
    ensures pos <= MAX_NAME && out[..pos] == LongName(lfns, MAX_NAME) && out[pos] == 0
  {
    hide Part, LongName;
    pos := 0;
    var i := |lfns|;
    assert lfns[..i] == lfns;
    while i > 0 && pos < MAX_NAME
      invariant i <= |lfns| && pos <= MAX_NAME
      invariant out[..pos] + LongName(lfns[..i], MAX_NAME - pos) == LongName(lfns, MAX_NAME)
      decreases i
    {
      ghost var was, room := out[..pos], MAX_NAME - pos;
      LongNameStep(lfns, i, room);
      pos := TakePart(lfns[i - 1], out, pos);
      assert was + (Part(lfns[i - 1], room) + LongName(lfns[..i - 1], MAX_NAME - pos))
             == out[..pos] + LongName(lfns[..i - 1], MAX_NAME - pos);
      i := i - 1;
    }
    LongNameEnd(lfns[..i], MAX_NAME - pos);
    out[pos] := 0;
  }

  lemma LongNameStep(lfns: seq<Entry>, i: nat, room: nat)
    requires 0 < i <= |lfns| && room > 0
    ensures var p := Part(lfns[i - 1], room);
            LongName(lfns[..i], room) == p + LongName(lfns[..i - 1], room - |p|)
  {
    hide Part;
    var front := lfns[..i];
    assert front[|front| - 1] == lfns[i - 1] && front[..|front| - 1] == lfns[..i - 1];
  }

  lemma LongNameEnd(lfns: seq<Entry>, room: nat)
    requires lfns == [] || room == 0
    ensures LongName(lfns, room) == []
  {
  }

  /** A loop of parse_83: the characters of s before the first blank, behind those written. */
  method TakeToBlank(s: seq<byte>, out: array<byte>, at: nat) returns (pos: nat)
    requires at + |s| < 256 && out.Length == 256
    modifies out
    ensures pos == at + |ToBlank(s)| && out[..pos] == old(out[..at]) + ToBlank(s)
  {
    pos := at;
    var i := 0;
    while i < |s| && s[i] != 0x20
      invariant i <= |s| && pos == at + i
      invariant out[..pos] + ToBlank(s[i..]) == old(out[..at]) + ToBlank(s)
    {
      ghost var before := out[..pos];
      out[pos] := s[i];
      assert s[i..][1..] == s[i + 1..];
      assert out[..pos + 1] == before + [s[i]];
      pos := pos + 1;
      i := i + 1;
    }
    assert ToBlank(s[i..]) == [];
  }

  /** parse_83: the short name and a terminating zero. */
  method Parse83(e: Entry, out: array<byte>) returns (pos: nat)
    requires out.Length == 256
    modifies out
    ensures pos <= 12 && out[..pos] == ShortName(e) && out[pos] == 0
  {
    hide ToBlank;
    pos := TakeToBlank(e[0..8], out, 0);
    if e[8] != 0x20 {
      ghost var before := out[..pos];
      out[pos] := 0x2E;
      assert out[..pos + 1] == before + [0x2E];
      pos := TakeToBlank(e[8..11], out, pos + 1);
      assert ToBlank(e[0..8]) + [0x2E] + ToBlank(e[8..11]) == ToBlank(e[0..8]) + ([0x2E] + ToBlank(e[8..11]));
    }
    out[pos] := 0;
  }

  // ----- load_dir -----

  /** The part of load_dir that makes a node from an ordinary entry. */
  method MakeNode(e: Entry, lfns: seq<Entry>) returns (node: Node)
    ensures node == NodeOf(e, lfns)
  {
    hide LongName, ShortName;
    var out := new byte[256];
    var n;
    if |lfns| > 0 {
      n := ParseLfn(lfns, out);
    } else {
      n := Parse83(e, out);
    }
    if IsDirectory(e) {
      node := DirNode(out[..n], StartCluster(e));
    } else {
      node := FileNode(out[..n], File(StartCluster(e), Le(e[28..32])));
    }
  }

  /** The body of the entry loop past the end test. */
  method HandleEntry(e: Entry, list: NodeList, lfns0: seq<Entry>) returns (lfns: seq<Entry>)
    requires list.Valid()
    modifies list, list.items
    ensures list.Valid() && (list.items == old(list.items) || fresh(list.items))
    ensures list.Contents() == old(list.Contents()) + Handle(e, lfns0).made && lfns == Handle(e, lfns0).lfns
  {
    hide NodeOf;
    lfns := lfns0;
    if e[0] == 0xE5 { return []; }
    if e[11] == ATTR_LFN {
      if |lfns| < MAX_LFNS { lfns := lfns + [e]; }
      return;
    }
    if IsVolumeLabel(e) { return []; }
    if e[0] == 0x2E { return []; }
    var node := MakeNode(e, lfns);
    list.Push(node);
    return [];
  }

  /** The loop over the 16 entries of the sector buffer. */
  method ScanSector(sector: seq<byte>, list: NodeList, lfns0: seq<Entry>) returns (lfns: seq<Entry>, done: bool)
    requires |sector| == SECTOR && list.Valid()
    modifies list, list.items
    ensures list.Valid() && (list.items == old(list.items) || fresh(list.items))
    ensures var r := ScanAll(EntriesFrom(sector, 0), lfns0);
            list.Contents() == old(list.Contents()) + r.made && done == r.done && lfns == r.lfns
  {
    hide Handle, ScanAll, EntriesFrom, Then;
    lfns := lfns0;
    ThenNone(ScanAll(EntriesFrom(sector, 0), lfns0));
    ghost var goal := ScanAll(EntriesFrom(sector, 0), lfns0);
    ghost var made: seq<Node> := [];
    for i := 0 to 16
      invariant list.Valid() && (list.items == old(list.items) || fresh(list.items))
      invariant list.Contents() == old(list.Contents()) + made
      invariant goal == Then(Scan(made, [], false), ScanAll(EntriesFrom(sector, i), lfns))
    {
      var e: Entry := sector[ENTRY * i..ENTRY * i + ENTRY];
      ScanStep(sector, i, lfns, made);
      if e[0] == 0 { return lfns, true; }
      made := made + Handle(e, lfns).made;
      lfns := HandleEntry(e, list, lfns);
    }
    SectorDone(sector, lfns, made);
    return lfns, false;
  }

  lemma ThenNone(r: Scan)
    ensures Then(Scan([], [], false), r) == r
  {
  }

  lemma SectorDone(sector: seq<byte>, lfns: seq<Entry>, made: seq<Node>)
    requires |sector| == SECTOR
    ensures Then(Scan(made, [], false), ScanAll(EntriesFrom(sector, 16), lfns)) == Scan(made, lfns, false)
  {
    ScanNil(lfns);
  }

  lemma ScanStep(sector: seq<byte>, i: nat, lfns: seq<Entry>, made: seq<Node>)
    requires |sector| == SECTOR && i < 16
    ensures var e := sector[ENTRY * i..ENTRY * i + ENTRY];
            var r := ScanAll(EntriesFrom(sector, i), lfns);
            if e[0] == 0 then Then(Scan(made, [], false), r) == Scan(made, lfns, true)
            else var x := Handle(e, lfns);
                 Then(Scan(made, [], false), r) == Then(Scan(made + x.made, [], false), ScanAll(EntriesFrom(sector, i + 1), x.lfns))
  {
    hide Handle;
    var es := EntriesFrom(sector, i);
    assert es[1..] == EntriesFrom(sector, i + 1);
  }

  /** The chain ends after n clusters, or a zero entry ends the directory within them. */
  ghost predicate Ends(v: Vol, disk: Disk, start: nat, n: nat)
    requires DiskOk(disk)
  {
    && (forall k :: 0 <= k < n ==> Nth(v, disk, start, k) < FAT_EOC)
    && (Nth(v, disk, start, n) >= FAT_EOC || ScanAll(DirEntries(v, disk, start, n), []).done)
  }

  /** The loop over the sectors of one cluster. */
  method ScanCluster(vol: Volume, cluster: nat, list: NodeList, lfns0: seq<Entry>) returns (lfns: seq<Entry>, done: bool)
    requires DiskOk(vol.disk) && list.Valid()
    modifies vol`sectorBuf, list, list.items
    ensures list.Valid() && (list.items == old(list.items) || fresh(list.items))
    ensures var r := ScanAll(ClusterEntries(vol.v, vol.disk, cluster, vol.v.spc), lfns0);
            list.Contents() == old(list.Contents()) + r.made && done == r.done && lfns == r.lfns
  {
    hide ScanAll, EntriesFrom;
    lfns, done := lfns0, false;
    var lba := ClusterLba(vol.v, cluster);
    ScanNil(lfns0);
    ghost var made: seq<Node> := [];
    for s := 0 to vol.v.spc
      invariant list.Valid() && (list.items == old(list.items) || fresh(list.items))
      invariant list.Contents() == old(list.Contents()) + made
      invariant ScanAll(ClusterEntries(vol.v, vol.disk, cluster, s), lfns0) == Scan(made, lfns, false)
    {
      vol.ReadSector((lba + s) % WORD32);
      ghost var a := ClusterEntries(vol.v, vol.disk, cluster, s);
      ghost var b := EntriesFrom(SectorAt(vol.v, vol.disk, cluster, s), 0);
      ScanConcat(a, b, lfns0);
      ghost var r := ScanAll(b, lfns);
      lfns, done := ScanSector(vol.sectorBuf, list, lfns);
      made := made + r.made;
      assert ScanAll(ClusterEntries(vol.v, vol.disk, cluster, s + 1), lfns0) == Scan(made, lfns, done);
      if done {
        ScanStops(vol.v, vol.disk, cluster, s + 1, vol.v.spc, lfns0);
        return;
      }
    }
  }

  lemma ScanNil(lfns: seq<Entry>)
    ensures ScanAll([], lfns) == Scan([], lfns, false)
  {
  }

  /** Once the end of the directory is met, later sectors add nothing. */
  lemma {:induction false} ScanStops(v: Vol, disk: Disk, cluster: nat, n: nat, m: nat, lfns: seq<Entry>)
    requires DiskOk(disk) && n <= m && ScanAll(ClusterEntries(v, disk, cluster, n), lfns).done
    ensures ScanAll(ClusterEntries(v, disk, cluster, m), lfns) == ScanAll(ClusterEntries(v, disk, cluster, n), lfns)
    decreases m
  {
    hide ScanAll, EntriesFrom;
    if n < m {
      ScanStops(v, disk, cluster, n, m - 1, lfns);
      ScanConcat(ClusterEntries(v, disk, cluster, m - 1), EntriesFrom(SectorAt(v, disk, cluster, m - 1), 0), lfns);
    }
  }

  lemma {:induction false} DirStops(v: Vol, disk: Disk, start: nat, n: nat, m: nat)
    requires DiskOk(disk) && n <= m && ScanAll(DirEntries(v, disk, start, n), []).done
    ensures ScanAll(DirEntries(v, disk, start, m), []) == ScanAll(DirEntries(v, disk, start, n), [])
    decreases m
  {
    hide ScanAll, ClusterEntries, Nth;
    if n < m {
      DirStops(v, disk, start, n, m - 1);
      ScanConcat(DirEntries(v, disk, start, m - 1), ClusterEntries(v, disk, Nth(v, disk, start, m - 1), v.spc), []);
    }
  }

  /**
   load_dir: the nodes of the directory are the functional parse of its flattened entries, for
   every chain that ends or whose entries do.
   */
  method LoadDir(vol: Volume, start: nat, ghost n: nat) returns (list: NodeList)
    requires DiskOk(vol.disk) && Ends(vol.v, vol.disk, start, n)
    modifies vol`sectorBuf
    ensures list.Valid() && fresh(list) && fresh(list.items)
    ensures list.Contents() == Parse(DirEntries(vol.v, vol.disk, start, n), [])
  {
    hide ScanAll, ClusterEntries, Parse, Next;
    list := new NodeList();
    var cluster := start;
    var lfns: seq<Entry>, done := [], false;
    ghost var k := 0;
    ScanNil([]);
    ScanParses(DirEntries(vol.v, vol.disk, start, n), []);
    while cluster < FAT_EOC
      invariant k <= n && cluster == Nth(vol.v, vol.disk, start, k)
      invariant list.Valid() && fresh(list) && fresh(list.items)
      invariant ScanAll(DirEntries(vol.v, vol.disk, start, k), []) == Scan(list.Contents(), lfns, false)
      decreases n - k
    {
      ghost var a, made := DirEntries(vol.v, vol.disk, start, k), list.Contents();
      ghost var b := ClusterEntries(vol.v, vol.disk, cluster, vol.v.spc);
      ScanConcat(a, b, []);
      lfns, done := ScanCluster(vol, cluster, list, lfns);
      assert ScanAll(DirEntries(vol.v, vol.disk, start, k + 1), []) == Scan(list.Contents(), lfns, done);
      if done {
        DirStops(vol.v, vol.disk, start, k + 1, n);
        return;
      }
      cluster := vol.NextCluster(cluster);
      k := k + 1;
    }
  }

  // ----- the entries are the chain's bytes, cut into pieces of 32 -----

  /** n pieces of 32 bytes of the chain's byte stream from position lo on. */
  function StreamEntries(v: Vol, disk: Disk, start: nat, lo: nat, n: nat): (es: seq<Entry>)
    requires v.Ok()
    ensures |es| == n
    decreases n
  {
    if n == 0 then []
    else [ChainBytes(v, disk, start, lo, ENTRY)] + StreamEntries(v, disk, start, lo + ENTRY, n - 1)
  }

  lemma {:induction false} StreamConcat(v: Vol, disk: Disk, start: nat, lo: nat, a: nat, b: nat)
    requires v.Ok()
    ensures StreamEntries(v, disk, start, lo, a) + StreamEntries(v, disk, start, lo + ENTRY * a, b)
            == StreamEntries(v, disk, start, lo, a + b)
    decreases a
  {
    hide ChainBytes;
    if a > 0 {
      StreamConcat(v, disk, start, lo + ENTRY, a - 1, b);
      assert lo + ENTRY + ENTRY * (a - 1) == lo + ENTRY * a;
    }
  }

  lemma EntryFits(v: Vol, s: nat, i: nat)
    requires s < v.spc && i < 16
    ensures s * SECTOR + ENTRY * i + ENTRY <= v.Bpc()
  {
  }

  lemma PosSplit(v: Vol, k: nat, off: nat)
    requires v.Ok() && off < v.Bpc()
    ensures ClusterOf(v, k * v.Bpc() + off) == k && OffsetIn(v, k * v.Bpc() + off) == off
  {
    QuotientUnique(k * v.Bpc() + off, v.Bpc(), k);
  }

  lemma EntryStream(v: Vol, disk: Disk, start: nat, k: nat, s: nat, i: nat)
    requires v.Ok() && DiskOk(disk) && s < v.spc && i < 16
    ensures SectorAt(v, disk, Nth(v, disk, start, k), s)[ENTRY * i..ENTRY * i + ENTRY]
            == ChainBytes(v, disk, start, k * v.Bpc() + s * SECTOR + ENTRY * i, ENTRY)
  {
    hide ChainBytes, ClusterBytes, Nth, ClusterOf, OffsetIn, ClusterLba, v.Bpc;
    var off := s * SECTOR + ENTRY * i;
    var pos := k * v.Bpc() + off;
    EntryFits(v, s, i);
    PosSplit(v, k, off);
    ChainInCluster(v, disk, start, pos, ENTRY);
    SectorSlice(v, disk, Nth(v, disk, start, k), s, ENTRY * i, ENTRY, off);
  }

  lemma {:induction false} SectorStream(v: Vol, disk: Disk, start: nat, k: nat, s: nat, i: nat)
    requires v.Ok() && DiskOk(disk) && s < v.spc && i <= 16
    ensures EntriesFrom(SectorAt(v, disk, Nth(v, disk, start, k), s), i)
            == StreamEntries(v, disk, start, k * v.Bpc() + s * SECTOR + ENTRY * i, 16 - i)
    decreases 16 - i
  {
    hide ChainBytes, Nth, SectorAt;
    if i < 16 {
      EntryStream(v, disk, start, k, s, i);
      SectorStream(v, disk, start, k, s, i + 1);
      SectorIsSector(v, disk, Nth(v, disk, start, k), s);
    }
  }

  lemma SectorIsSector(v: Vol, disk: Disk, cluster: nat, s: nat)
    requires DiskOk(disk)
    ensures |SectorAt(v, disk, cluster, s)| == SECTOR
  {
  }

  lemma {:induction false} ClusterStream(v: Vol, disk: Disk, start: nat, k: nat, n: nat)
    requires v.Ok() && DiskOk(disk) && n <= v.spc
    ensures ClusterEntries(v, disk, Nth(v, disk, start, k), n)
            == StreamEntries(v, disk, start, k * v.Bpc(), 16 * n)
    decreases n
  {
    hide StreamEntries, EntriesFrom, Nth, SectorAt;
    if n > 0 {
      ClusterStream(v, disk, start, k, n - 1);
      SectorStream(v, disk, start, k, n - 1, 0);
      StreamConcat(v, disk, start, k * v.Bpc(), 16 * (n - 1), 16);
      assert ENTRY * (16 * (n - 1)) == (n - 1) * SECTOR;
      SectorIsSector(v, disk, Nth(v, disk, start, k), n - 1);
    } else {
      StreamNil(v, disk, start, k * v.Bpc());
    }
  }

  lemma StreamNil(v: Vol, disk: Disk, start: nat, lo: nat)
    requires v.Ok()
    ensures StreamEntries(v, disk, start, lo, 0) == []
  {
  }

  /** The entries of a directory are the 32-byte pieces of its cluster chain, in order. */
  lemma {:induction false} DirStream(v: Vol, disk: Disk, start: nat, n: nat)
    requires v.Ok() && DiskOk(disk)
    ensures DirEntries(v, disk, start, n) == StreamEntries(v, disk, start, 0, n * (16 * v.spc))
    decreases n
  {
    hide StreamEntries, ClusterEntries, Nth;
    if n > 0 {
      DirStream(v, disk, start, n - 1);
      ClusterStream(v, disk, start, n - 1, v.spc);
      StreamConcat(v, disk, start, 0, (n - 1) * (16 * v.spc), 16 * v.spc);
      BytesBefore(n - 1, v.spc);
      assert (n - 1) * (16 * v.spc) + 16 * v.spc == n * (16 * v.spc);
    } else {
      StreamNil(v, disk, start, 0);
    }
  }

  lemma BytesBefore(k: nat, spc: nat)
    ensures ENTRY * (k * (16 * spc)) == k * (spc * SECTOR)
  {
    assert k * (16 * spc) == 16 * (k * spc);
    assert k * (spc * SECTOR) == SECTOR * (k * spc);
  }
}
