/** FAT32 directory entries: long and short names, and the parse of a stream of entries. */
module FatNames {

  import opened Bytes
  import opened FatSpec

  const ENTRY: nat := 32
  const ATTR_LFN: byte := 0x0F
  const MAX_LFNS: nat := 20
  const MAX_NAME: nat := 255

  /** A 32-byte directory entry. */
  type Entry = e: seq<byte> | |e| == ENTRY witness seq<byte>(ENTRY, i => 0)

  predicate IsVolumeLabel(e: Entry) { e[11] / 8 % 2 == 1 }
  predicate IsDirectory(e: Entry) { e[11] / 16 % 2 == 1 }

  /** A 16-bit unit stored at offset o. */
  function Unit(e: Entry, o: nat): (u: nat)
    requires o + 2 <= ENTRY
    ensures u < WORD16
  {
    var lo: int, hi: int := e[o], e[o + 1];
    lo + 256 * hi
  }

  function Units(e: Entry, o: nat, n: nat): (s: seq<nat>)
    requires o + 2 * n <= ENTRY
    ensures |s| == n
  {
    seq(n, i requires 0 <= i < n => Unit(e, o + 2 * i))
  }

  /** The leading characters of a run of units: up to a zero or padding unit, at most room of them. */
  function Take(us: seq<nat>, room: nat): (s: seq<byte>)
    ensures |s| <= room && |s| <= |us|
  {
    if us == [] || room == 0 || us[0] == 0 || us[0] == 0xFFFF then []
    else [us[0] % 256] + Take(us[1..], room - 1)
  }

  /** The characters one long-name entry contributes: its three runs are read one after the other. */
  function Part(e: Entry, room: nat): (s: seq<byte>)
    ensures |s| <= room
  {
    var a := Take(Units(e, 1, 5), room);
    var b := Take(Units(e, 14, 6), room - |a|);
    var c := Take(Units(e, 28, 2), room - |a| - |b|);
    a + b + c
  }

  /** The long name of the entries collected so far: the last one comes first. */
  function LongName(lfns: seq<Entry>, room: nat): (s: seq<byte>)
    ensures |s| <= room
    decreases |lfns|
  {
    if lfns == [] || room == 0 then []
    else
      var p := Part(lfns[|lfns| - 1], room);
      p + LongName(lfns[..|lfns| - 1], room - |p|)
  }

  /** The characters before the first blank. */
  function ToBlank(s: seq<byte>): (r: seq<byte>)
    ensures |r| <= |s|
  {
    if s == [] || s[0] == 0x20 then [] else [s[0]] + ToBlank(s[1..])
  }

  /** The 8.3 name: base, and a dot and the extension if there is one. */
  function ShortName(e: Entry): (s: seq<byte>)
    ensures |s| <= 12
  {
    ToBlank(e[0..8]) + (if e[8] != 0x20 then [0x2E] + ToBlank(e[8..11]) else [])
  }

  datatype Node = FileNode(name: seq<byte>, file: File) | DirNode(name: seq<byte>, cluster: nat)

  function StartCluster(e: Entry): nat { Unit(e, 20) * WORD16 + Unit(e, 26) }

  function NodeOf(e: Entry, lfns: seq<Entry>): Node
  {
    var name := if lfns != [] then LongName(lfns, MAX_NAME) else ShortName(e);
    if IsDirectory(e) then DirNode(name, StartCluster(e))
    else FileNode(name, File(StartCluster(e), Le(e[28..32])))
  }

  /** What one entry before the end does to the collected long-name entries, and the node it makes. */
  datatype Effect = Effect(lfns: seq<Entry>, made: seq<Node>)

  function Handle(e: Entry, lfns: seq<Entry>): Effect
  {
    if e[0] == 0xE5 then Effect([], [])
    else if e[11] == ATTR_LFN then Effect(if |lfns| < MAX_LFNS then lfns + [e] else lfns, [])
    else if IsVolumeLabel(e) || e[0] == 0x2E then Effect([], [])
    else Effect([], [NodeOf(e, lfns)])
  }

  /** The nodes of a directory: its entries in order, up to the first whose name starts with zero. */
  function Parse(es: seq<Entry>, lfns: seq<Entry>): seq<Node>
  {
    if es == [] || es[0][0] == 0 then []
    else
      var x := Handle(es[0], lfns);
      x.made + Parse(es[1..], x.lfns)
  }

  // ----- writing a long name -----

  /** A piece of up to 13 characters as 13 units: a zero after a short piece, then padding. */
  function Pad(p: seq<byte>): (us: seq<nat>)
    requires |p| <= 13
    ensures |us| == 13
    ensures forall i :: 0 <= i < 13 ==> us[i] == PadAt(p, i)
  {
    seq(13, i requires 0 <= i < 13 => PadAt(p, i))
  }

  function PadAt(p: seq<byte>, i: nat): nat
  {
    if i < |p| then p[i] else if i == |p| then 0 else 0xFFFF
  }

  function U16(us: seq<nat>): (s: seq<byte>)
    requires forall i :: 0 <= i < |us| ==> us[i] < WORD16
    ensures |s| == 2 * |us|
    ensures forall i :: 0 <= i < |us| ==> s[2 * i] == us[i] % 256 && s[2 * i + 1] == us[i] / 256
  {
    if us == [] then [] else
      var r := U16(us[1..]);
      assert forall i :: 1 <= i < |us| ==> us[i] == us[1..][i - 1];
      [us[0] % 256, us[0] / 256] + r
  }

  /** A long-name entry with the given order byte, checksum and piece. */
  function EncodePart(order: byte, sum: byte, p: seq<byte>): (e: Entry)
    requires |p| <= 13
    ensures e[0] == order && e[11] == 0x0F
  {
    var us := Pad(p);
    [order] + U16(us[0..5]) + [0x0F, 0, sum] + U16(us[5..11]) + [0, 0] + U16(us[11..13])
  }

  /** How many parts of 13 characters a name takes besides its last. */
  function MoreParts(n: nat): nat
    requires n >= 1
  {
    (n - 1) / 13
  }

  lemma OnePartMore(n: nat)
    requires n > 13
    ensures MoreParts(n) == MoreParts(n - 13) + 1
  {
  }

  lemma FewParts(n: nat)
    requires 1 <= n <= 255
    ensures MoreParts(n) <= 19
  {
  }

  /** The entries for a long name, as they lie on the disk: the piece with the end of the name first. */
  function EncodeName(name: seq<byte>, order: nat, sum: byte): (es: seq<Entry>)
    requires 1 <= order && |name| >= 1 && order + MoreParts(|name|) <= 20
    ensures |es| == MoreParts(|name|) + 1
    ensures forall i :: 0 <= i < |es| ==> es[i][11] == ATTR_LFN && es[i][0] != 0 && es[i][0] != 0xE5
    decreases |name|
  {
    if |name| <= 13 then [EncodePart(order + 0x40, sum, name)]
    else
      OnePartMore(|name|);
      EncodeName(name[13..], order + 1, sum) + [EncodePart(order, sum, name[..13])]
  }

  predicate NonZero(s: seq<byte>) { forall i :: 0 <= i < |s| ==> s[i] != 0 }

  /** The units written are the units read. */
  lemma {:induction false} UnitsOf(e: Entry, o: nat, us: seq<nat>)
    requires o + 2 * |us| <= ENTRY && forall i :: 0 <= i < |us| ==> us[i] < WORD16
    requires e[o..o + 2 * |us|] == U16(us)
    ensures Units(e, o, |us|) == us
  {
    var w := U16(us);
    var r := Units(e, o, |us|);
    forall i | 0 <= i < |us| ensures r[i] == us[i] {
      assert e[o..o + 2 * |us|][2 * i] == e[o + 2 * i] && e[o..o + 2 * |us|][2 * i + 1] == e[o + 2 * i + 1];
      assert w[2 * i] == us[i] % 256 && w[2 * i + 1] == us[i] / 256;
    }
  }

  /** Part of a padded piece, read back. */
  function Piece(p: seq<byte>, lo: nat, hi: nat): seq<byte>
    requires lo <= hi
  {
    if |p| <= lo then [] else if |p| < hi then p[lo..] else p[lo..hi]
  }

  lemma {:induction false} TakePad(p: seq<byte>, lo: nat, hi: nat, room: nat)
    requires |p| <= 13 && lo <= hi <= 13 && NonZero(p) && |Piece(p, lo, hi)| <= room
    ensures Take(Pad(p)[lo..hi], room) == Piece(p, lo, hi)
    decreases hi - lo
  {
    hide Take, Pad, Piece;
    var us := Pad(p)[lo..hi];
    if lo == hi || |p| <= lo {
      PieceNone(p, lo, hi);
      TakeNone(us, room);
    } else {
      assert us[0] == PadAt(p, lo) == p[lo];
      assert us[1..] == Pad(p)[lo + 1..hi];
      PieceStep(p, lo, hi);
      TakePad(p, lo + 1, hi, room - 1);
      TakeStep(us, room);
    }
  }

  lemma TakeNone(us: seq<nat>, room: nat)
    requires us == [] || us[0] == 0 || us[0] == 0xFFFF
    ensures Take(us, room) == []
  {
  }

  lemma TakeStep(us: seq<nat>, room: nat)
    requires us != [] && us[0] != 0 && us[0] < 256 && room > 0
    ensures Take(us, room) == [us[0]] + Take(us[1..], room - 1)
  {
  }

  lemma PieceNone(p: seq<byte>, lo: nat, hi: nat)
    requires lo == hi || (lo < hi && |p| <= lo)
    ensures Piece(p, lo, hi) == []
  {
  }

  lemma PieceStep(p: seq<byte>, lo: nat, hi: nat)
    requires lo < hi && lo < |p|
    ensures Piece(p, lo, hi) == [p[lo]] + Piece(p, lo + 1, hi)
  {
  }

  lemma PadSmall(p: seq<byte>)
    requires |p| <= 13
    ensures forall i :: 0 <= i < 13 ==> Pad(p)[i] < WORD16
  {
  }

  /** The three runs of an encoded entry. */
  lemma EncodedUnits(order: byte, sum: byte, p: seq<byte>)
    requires |p| <= 13
    ensures var e := EncodePart(order, sum, p);
            Units(e, 1, 5) == Pad(p)[0..5] && Units(e, 14, 6) == Pad(p)[5..11] && Units(e, 28, 2) == Pad(p)[11..13]
  {
    hide Pad, PadAt;
    PadSmall(p);
    var us := Pad(p);
    var e := EncodePart(order, sum, p);
    assert e[1..11] == U16(us[0..5]);
    assert e[14..26] == U16(us[5..11]);
    assert e[28..32] == U16(us[11..13]);
    UnitsOf(e, 1, us[0..5]);
    UnitsOf(e, 14, us[5..11]);
    UnitsOf(e, 28, us[11..13]);
  }

  lemma PartReadsBack(order: byte, sum: byte, p: seq<byte>, room: nat)
    requires |p| <= 13 && NonZero(p) && |p| <= room
    ensures Part(EncodePart(order, sum, p), room) == p
  {
    hide Pad, PadAt, EncodePart, Take;
    EncodedUnits(order, sum, p);
    TakePad(p, 0, 5, room);
    TakePad(p, 5, 11, room - |Piece(p, 0, 5)|);
    TakePad(p, 11, 13, room - |Piece(p, 0, 5)| - |Piece(p, 5, 11)|);
    assert Piece(p, 0, 5) + Piece(p, 5, 11) + Piece(p, 11, 13) == p;
  }

  /** A name of non-zero characters written in long-name entries is read back unchanged. */
  lemma {:induction false} LongNameReadsBack(name: seq<byte>, order: nat, sum: byte, room: nat)
    requires 1 <= order && 1 <= |name| <= room && order + MoreParts(|name|) <= 20 && NonZero(name)
    ensures LongName(EncodeName(name, order, sum), room) == name
    decreases |name|
  {
    hide EncodePart, Part, LongName, MoreParts, Take;
    if |name| <= 13 {
      PartReadsBack(order + 0x40, sum, name, room);
      LongNameSnoc([], EncodePart(order + 0x40, sum, name), room);
      assert [] + EncodeName(name, order, sum) == EncodeName(name, order, sum);
    } else {
      OnePartMore(|name|);
      var rest, e := EncodeName(name[13..], order + 1, sum), EncodePart(order, sum, name[..13]);
      PartReadsBack(order, sum, name[..13], room);
      LongNameSnoc(rest, e, room);
      LongNameReadsBack(name[13..], order + 1, sum, room - 13);
    }
  }

  lemma LongNameSnoc(ls: seq<Entry>, e: Entry, room: nat)
    requires room > 0
    ensures LongName(ls + [e], room) == Part(e, room) + LongName(ls, room - |Part(e, room)|)
    ensures forall r: nat :: LongName([], r) == []
  {
    hide Part;
    var all := ls + [e];
    assert all[|all| - 1] == e && all[..|all| - 1] == ls;
  }

  /** Long-name entries in front of other entries are collected. */
  lemma {:induction false} ParseCollects(ls: seq<Entry>, es: seq<Entry>, acc: seq<Entry>)
    requires |acc| + |ls| <= MAX_LFNS
    requires forall i :: 0 <= i < |ls| ==> ls[i][11] == ATTR_LFN && ls[i][0] != 0 && ls[i][0] != 0xE5
    ensures Parse(ls + es, acc) == Parse(es, acc + ls)
    decreases |ls|
  {
    if ls == [] {
      assert ls + es == es && acc + ls == acc;
    } else {
      assert (ls + es)[1..] == ls[1..] + es;
      assert acc + ls == (acc + [ls[0]]) + ls[1..];
      ParseCollects(ls[1..], es, acc + [ls[0]]);
    }
  }

  /** An entry that becomes a node: not free, not a label, not a long-name part, not a dot entry. */
  predicate Ordinary(e: Entry)
  {
    e[0] != 0 && e[0] != 0xE5 && e[0] != 0x2E && e[11] != ATTR_LFN && !IsVolumeLabel(e)
  }

  /**
   Any name of 1 to 255 non-zero characters, written as long-name entries in front of its
   short entry, comes out of the directory parse unchanged, and the parse goes on after it.
   */
  /** An ordinary entry behind collected long-name entries. */
  lemma LastEntry(ls: seq<Entry>, e: Entry, rest: seq<Entry>)
    requires Ordinary(e)
    ensures Parse([e] + rest, ls) == [NodeOf(e, ls)] + Parse(rest, [])
  {
    hide NodeOf;
    assert ([e] + rest)[1..] == rest;
  }

  lemma ParseLongName(name: seq<byte>, sum: byte, e: Entry, rest: seq<Entry>)
    requires 1 <= |name| <= 255 && NonZero(name) && Ordinary(e)
    ensures MoreParts(|name|) <= 19
    ensures var p := Parse(EncodeName(name, 1, sum) + [e] + rest, []);
            && p != [] && p == [p[0]] + Parse(rest, []) && p[0].name == name
            && p[0] == if IsDirectory(e) then DirNode(name, StartCluster(e)) else FileNode(name, File(StartCluster(e), Le(e[28..32])))
  {
    hide EncodeName, LongName, MoreParts;
    FewParts(|name|);
    var ls := EncodeName(name, 1, sum);
    LongNameReadsBack(name, 1, sum, MAX_NAME);
    ParseCollects(ls, [e] + rest, []);
    LastEntry(ls, e, rest);
    assert ls + [e] + rest == ls + ([e] + rest);
    assert [] + ls == ls;
  }

  // ----- writing an ordinary entry -----

  function Blanks(n: nat): (s: seq<byte>)
    ensures |s| == n && forall i :: 0 <= i < n ==> s[i] == 0x20
  {
    seq(n, i => 0x20)
  }

  /** What an ordinary entry says: base and extension of its short name, attributes, start cluster and size. */
  datatype Info = Info(base: seq<byte>, ext: seq<byte>, attr: byte, cluster: nat, size: nat) {
    /** An 8.3 name that marks neither the end, nor a deleted entry, nor a dot entry; neither a long-name part nor a label. */
    predicate Ok()
    {
      && 1 <= |base| <= 8 && |ext| <= 3 && base[0] != 0 && base[0] != 0xE5 && base[0] != 0x2E
      && attr != 0x0F && attr / 8 % 2 == 0 && cluster < WORD32 && size < WORD32
    }

    /** The name as it is written: base, dot, extension. */
    function Name(): seq<byte> { if ext == [] then base else base + [0x2E] + ext }

    /** The node it stands for, under a name; bit 4 of the attributes marks a directory. */
    function Node(name: seq<byte>): Node
    {
      if attr / 16 % 2 == 1 then DirNode(name, cluster) else FileNode(name, File(cluster, size))
    }
  }

  /**
   The layout of a directory entry in the FAT specification: name and extension padded with blanks,
   attributes, 8 bytes of times, the high half of the cluster, 4 bytes of times, the low half, and
   the size, each number least significant byte first.
   */
  function EncodeEntry(x: Info, times: seq<byte>): (e: Entry)
    requires x.Ok() && |times| == 12
    ensures e[0] == x.base[0] && e[11] == x.attr
  {
    x.base + Blanks(8 - |x.base|) + x.ext + Blanks(3 - |x.ext|) + [x.attr] + times[..8]
    + [x.cluster / 0x1_0000 % 256, x.cluster / 0x100_0000] + times[8..]
    + [x.cluster % 256, x.cluster / 0x100 % 256]
    + [x.size % 256, x.size / 0x100 % 256, x.size / 0x1_0000 % 256, x.size / 0x100_0000]
  }

  /** Its fields, where the layout has them. */
  lemma EncodedFields(x: Info, times: seq<byte>)
    requires x.Ok() && |times| == 12
    ensures var e := EncodeEntry(x, times);
            && e[0..8] == x.base + Blanks(8 - |x.base|) && e[8..11] == x.ext + Blanks(3 - |x.ext|)
            && e[20] == x.cluster / 0x1_0000 % 256 && e[21] == x.cluster / 0x100_0000
            && e[26] == x.cluster % 256 && e[27] == x.cluster / 0x100 % 256
            && e[28..32] == [x.size % 256, x.size / 0x100 % 256, x.size / 0x1_0000 % 256, x.size / 0x100_0000]
  {
  }

  lemma ClusterReadsBack(x: Info, times: seq<byte>)
    requires x.Ok() && |times| == 12
    ensures StartCluster(EncodeEntry(x, times)) == x.cluster
  {
    hide EncodeEntry;
    EncodedFields(x, times);
    TwoBytes(x.cluster / 0x1_0000);
    TwoBytes(x.cluster % 0x1_0000);
    Halves(x.cluster);
  }

  lemma TwoBytes(h: nat)
    requires h < WORD16
    ensures h % 256 + 256 * (h / 256) == h
  {
  }

  lemma Halves(c: nat)
    ensures c / 0x1_0000 / 256 == c / 0x100_0000 && c % 0x1_0000 % 256 == c % 256 && c % 0x1_0000 / 256 == c / 256 % 256
    ensures c / 0x1_0000 * 0x1_0000 + c % 0x1_0000 == c
  {
  }

  lemma SizeReadsBack(x: Info, times: seq<byte>)
    requires x.Ok() && |times| == 12
    ensures Le(EncodeEntry(x, times)[28..32]) == x.size
  {
    hide EncodeEntry;
    EncodedFields(x, times);
    FourDigits(x.size);
  }

  lemma FourDigits(n: nat)
    requires n < WORD32
    ensures Le([n % 256, n / 0x100 % 256, n / 0x1_0000 % 256, n / 0x100_0000]) == n
  {
    LeFour(n % 256, n / 0x100 % 256, n / 0x1_0000 % 256, n / 0x100_0000);
    Digits(n);
  }

  lemma Digits(n: nat)
    ensures n == n % 256 + 256 * (n / 0x100 % 256 + 256 * (n / 0x1_0000 % 256 + 256 * (n / 0x100_0000)))
  {
    var a, b := n / 0x100, n / 0x1_0000;
    assert n == 256 * a + n % 256 && a == 256 * (a / 256) + a % 256 && a / 256 == b;
    assert b == 256 * (b / 256) + b % 256 && b / 256 == n / 0x100_0000;
  }

  /** Padding with blanks does not add to a name, and a blank inside cuts it. */
  lemma {:induction false} PaddedName(p: seq<byte>, n: nat)
    ensures var r := ToBlank(p + Blanks(n));
            |r| <= |p| && (|r| == |p| <==> 0x20 !in p) && (0x20 !in p ==> r == p)
    decreases |p|
  {
    if p == [] {
      assert [] + Blanks(n) == Blanks(n);
    } else {
      PaddedName(p[1..], n);
      assert (p + Blanks(n))[1..] == p[1..] + Blanks(n) && (p + Blanks(n))[0] == p[0];
      assert p == [p[0]] + p[1..];
    }
  }

  /** The short name reads back exactly when neither part of it has a blank inside. */
  lemma ShortNameIff(x: Info, times: seq<byte>)
    requires x.Ok() && |times| == 12
    ensures ShortName(EncodeEntry(x, times)) == x.Name() <==> 0x20 !in x.base && 0x20 !in x.ext
  {
    hide EncodeEntry, ToBlank;
    EncodedFields(x, times);
    var e := EncodeEntry(x, times);
    PaddedName(x.base, 8 - |x.base|);
    PaddedName(x.ext, 3 - |x.ext|);
    assert e[8] == e[8..11][0];
    assert x.ext != [] ==> e[8] == x.ext[0];
  }

  /**
   Any ordinary entry in that layout is read as exactly what it says: its short name, start cluster
   and size, as a file or a directory; and so is what follows it.
   */
  lemma EntryReadsBack(x: Info, times: seq<byte>, rest: seq<Entry>)
    requires x.Ok() && |times| == 12 && 0x20 !in x.base && 0x20 !in x.ext
    ensures Parse([EncodeEntry(x, times)] + rest, []) == [x.Node(x.Name())] + Parse(rest, [])
  {
    hide EncodeEntry, ShortName, StartCluster;
    var e := EncodeEntry(x, times);
    ShortNameIff(x, times);
    ClusterReadsBack(x, times);
    SizeReadsBack(x, times);
    assert ([e] + rest)[1..] == rest;
  }

  /**
   A deleted entry, a volume label and a dot entry make no node and drop the long-name entries
   collected before them; the first entry that starts with zero ends the directory.
   */
  lemma Skipped(e: Entry, rest: seq<Entry>, lfns: seq<Entry>)
    ensures e[0] == 0 ==> Parse([e] + rest, lfns) == []
    ensures e[0] == 0xE5 ==> Parse([e] + rest, lfns) == Parse(rest, [])
    ensures e[0] != 0 && e[11] != 0x0F && (e[11] / 8 % 2 == 1 || e[0] == 0x2E) ==> Parse([e] + rest, lfns) == Parse(rest, [])
  {
    assert ([e] + rest)[1..] == rest;
  }

  /** Of more than 20 long-name entries in a row only the first 20 are kept. */
  lemma TwentyKept(e: Entry, rest: seq<Entry>, lfns: seq<Entry>)
    requires e[0] != 0 && e[0] != 0xE5 && e[11] == 0x0F
    ensures Parse([e] + rest, lfns) == Parse(rest, if |lfns| < 20 then lfns + [e] else lfns)
  {
    assert ([e] + rest)[1..] == rest;
  }

  /** Behind the entries of a long name of 1 to 255 characters it is read under that name. */
  lemma LongEntryReadsBack(name: seq<byte>, sum: byte, x: Info, times: seq<byte>, rest: seq<Entry>)
    requires 1 <= |name| <= 255 && NonZero(name) && x.Ok() && |times| == 12
    ensures MoreParts(|name|) <= 19
    ensures Parse(EncodeName(name, 1, sum) + [EncodeEntry(x, times)] + rest, []) == [x.Node(name)] + Parse(rest, [])
  {
    hide EncodeEntry, EncodeName, LongName, ShortName, StartCluster, MoreParts, Parse;
    FewParts(|name|);
    var e := EncodeEntry(x, times);
    ClusterReadsBack(x, times);
    SizeReadsBack(x, times);
    ParseLongName(name, sum, e, rest);
    assert x.Node(name) == (if IsDirectory(e) then DirNode(name, StartCluster(e)) else FileNode(name, File(StartCluster(e), Le(e[28..32]))));
  }
}
