/**
 Runs of the kernel heap: sequences of kmalloc, kfree and krealloc calls on the
 block list, with the byte counter.
 */
module HeapRun {

  import opened Bytes
  import opened Machine
  import opened Sequences
  import opened HeapSpec

  /** bs is the block list and used the counter kheap_used reports. */
  datatype State = State(bs: seq<Block>, used: nat)

  datatype Op =
    | Malloc(n: nat)
    | Free(p: nat)
    | Realloc(p: nat, n: nat)

  datatype Outcome = Done(s: State, ptr: nat) | Panic

  function Init(arch: Arch, g: Region): State
    requires RegionOk(arch, g)
  {
    State([Block(g.start, g.total - HeaderSize(arch), false)], 0)
  }

  function DoMalloc(arch: Arch, s: State, n: nat): Outcome
  {
    if n == 0 then Done(s, 0)
    else
      var r := AlignUp8(arch, n);
      var i := FirstFit(s.bs, r);
      if i == |s.bs| then Panic
      else
        var c := Carve(arch, s.bs[i], r)[0];
        Done(State(AllocAt(arch, s.bs, i, r), arch.Wrap(s.used + r)), c.addr + HeaderSize(arch))
  }

  ghost predicate LiveOrNull(arch: Arch, s: State, p: nat)
  {
    p == 0 || IsLive(arch, s.bs, p)
  }

  /** The live block whose payload starts at p. */
  function BlockOf(arch: Arch, s: State, p: nat): nat
  {
    if p < HeaderSize(arch) then |s.bs| else IndexOf(s.bs, p - HeaderSize(arch))
  }

  function DoFree(arch: Arch, s: State, p: nat): Outcome
  {
    if p == 0 then Done(s, 0)
    else
      var i := BlockOf(arch, s, p);
      if i < |s.bs| && s.bs[i].used && s.bs[MergeLo(s.bs, i)].addr + HeaderSize(arch) <= End(arch, s.bs[MergeHi(s.bs, i)]) then
        Done(s.(bs := FreeAt(arch, s.bs, i), used := arch.Wrap(s.used - s.bs[i].size)), 0)
      else
        Panic
  }

  function DoRealloc(arch: Arch, s: State, p: nat, n: nat): Outcome
  {
    if p == 0 then DoMalloc(arch, s, n)
    else if n == 0 then DoFree(arch, s, p)
    else
      var i := BlockOf(arch, s, p);
      if i == |s.bs| then Panic
      else if s.bs[i].size >= n then Done(s, p)
      else match DoMalloc(arch, s, n)
        case Panic => Panic
        case Done(s1, q) =>
          match DoFree(arch, s1, p)
          case Panic => Panic
          case Done(s2, _) => Done(s2, q)
  }

  function Do(arch: Arch, s: State, op: Op): Outcome
  {
    match op
    case Malloc(n) => DoMalloc(arch, s, n)
    case Free(p) => DoFree(arch, s, p)
    case Realloc(p, n) => DoRealloc(arch, s, p, n)
  }

  /** The block kmalloc makes for a request it serves. */
  function NewBlock(arch: Arch, s: State, n: nat): Block
    requires n > 0 && DoMalloc(arch, s, n).Done?
  {
    var r := AlignUp8(arch, n);
    Carve(arch, s.bs[FirstFit(s.bs, r)], r)[0]
  }

  /** If krealloc moves the block at p, the block it gets is at least as large. */
  ghost predicate MoveFits(arch: Arch, s: State, p: nat, n: nat)
  {
    var i := BlockOf(arch, s, p);
    n > 0 && i < |s.bs| && s.bs[i].size < n && DoMalloc(arch, s, n).Done? ==>
      s.bs[i].size <= NewBlock(arch, s, n).size
  }

  /** What callers owe: a pointer that is null or live, and no move to a block smaller than the old one. */
  ghost predicate Legal(arch: Arch, s: State, op: Op)
  {
    match op
    case Malloc(n) => n < arch.WordMod()
    case Free(p) => LiveOrNull(arch, s, p)
    case Realloc(p, n) => LiveOrNull(arch, s, p) && n < arch.WordMod() && (p == 0 || MoveFits(arch, s, p, n))
  }

  // ----- the invariant of every run -----

  ghost predicate Inv(arch: Arch, g: Region, s: State)
  {
    && RegionOk(arch, g)
    && Tiles(arch, g, s.bs)
    && NoTwoFree(s.bs)
    && s.used < arch.WordMod()
  }

  lemma InitInv(arch: Arch, g: Region)
    requires RegionOk(arch, g)
    ensures Inv(arch, g, Init(arch, g))
  {
    assert LiveTotal(Init(arch, g).bs) == 0;
  }

  /** Wrapping early or late gives the same word. */
  lemma WrapWrap(arch: Arch, x: int, d: int)
    ensures arch.Wrap(arch.Wrap(x) + d) == arch.Wrap(x + d)
  {
  }

  /** kmalloc fails exactly when no free block holds the rounded request. */
  lemma MallocPanicsIff(arch: Arch, s: State, n: nat)
    requires n > 0
    ensures DoMalloc(arch, s, n).Panic? <==>
            forall b :: b in s.bs && !b.used ==> b.size < AlignUp8(arch, n)
  {
    var r := AlignUp8(arch, n);
    var i := FirstFit(s.bs, r);
    if i < |s.bs| {
      assert s.bs[i] in s.bs;
    } else {
      forall b | b in s.bs && !b.used ensures b.size < r {
        var j :| 0 <= j < |s.bs| && s.bs[j] == b;
        assert !Fits(s.bs[j], r);
      }
    }
  }

  /** One allocation: one new live block, no other live block touched, no panic hidden. */
  lemma MallocStep(arch: Arch, g: Region, s: State, n: nat)
    requires Inv(arch, g, s) && n > 0
    requires DoMalloc(arch, s, n).Done?
    ensures var t := DoMalloc(arch, s, n).s; var p := DoMalloc(arch, s, n).ptr;
            && Inv(arch, g, t)
            && var c := NewBlock(arch, s, n);
            && c !in Live(s.bs) && Live(t.bs) == Live(s.bs) + {c}
            && p == c.addr + HeaderSize(arch) && c.size >= AlignUp8(arch, n)
  {
    hide Arch.Wrap, AlignUp8, LiveTotal, Tiles, NoTwoFree, AllocAt, FirstFit, Live;
    var r := AlignUp8(arch, n);
    var i := FirstFit(s.bs, r);
    var c := Carve(arch, s.bs[i], r)[0];
    var t := DoMalloc(arch, s, n).s;
    AllocKeeps(arch, g, s.bs, i, r);
    AllocLive(arch, g, s.bs, i, r);
  }

  /**
   The block kmalloc returns holds the request exactly when the rounding does not
   wrap: a request within 7 of the word size is rounded to nothing and still served.
   */
  lemma MallocHoldsIff(arch: Arch, g: Region, s: State, n: nat)
    requires Inv(arch, g, s) && 0 < n < arch.WordMod()
    requires DoMalloc(arch, s, n).Done?
    ensures var i := FirstFit(s.bs, AlignUp8(arch, n));
            Carve(arch, s.bs[i], AlignUp8(arch, n))[0].size >= n <==> n + 7 < arch.WordMod()
  {
    TilesOrderedAll(arch, g, s.bs);
  }

  /** A move never runs over the new block unless the rounding of the new size wraps. */
  lemma MoveFitsUnlessWrapped(arch: Arch, s: State, p: nat, n: nat)
    requires n + 7 < arch.WordMod()
    ensures MoveFits(arch, s, p, n)
  {
  }

  /**
   Read off the request and the block list: the rounding of the new size does not wrap, or the old
   block is empty, or the first free block is too small to be split and no smaller than the old one.
   */
  predicate MovesSafely(arch: Arch, s: State, size: nat, n: nat)
  {
    var i := FirstFit(s.bs, 0);
    || n + 7 < arch.WordMod()
    || size == 0
    || (i < |s.bs| && size <= s.bs[i].size < HeaderSize(arch) + MIN_SPLIT)
  }

  lemma MoveFitsIff(arch: Arch, g: Region, s: State, p: nat, n: nat)
    requires Inv(arch, g, s) && p != 0 && IsLive(arch, s.bs, p) && 0 < n < arch.WordMod() && DoMalloc(arch, s, n).Done?
    requires s.bs[BlockOf(arch, s, p)].size < n
    ensures MoveFits(arch, s, p, n) <==> MovesSafely(arch, s, s.bs[BlockOf(arch, s, p)].size, n)
  {
    LiveIndex(arch, g, s, p);
    assert n + 7 >= arch.WordMod() ==> AlignUp8(arch, n) == 0;
  }

  /**
   krealloc copies the old block into the one kmalloc gives. The copy stays inside the new block
   exactly when the request moves safely; otherwise it runs over the end of it, which is the next
   header or the end of the heap.
   */
  lemma CopyStaysIff(arch: Arch, g: Region, s: State, p: nat, n: nat)
    requires Inv(arch, g, s) && p != 0 && IsLive(arch, s.bs, p) && 0 < n < arch.WordMod() && DoMalloc(arch, s, n).Done?
    requires s.bs[BlockOf(arch, s, p)].size < n
    ensures var b, c, q := s.bs[BlockOf(arch, s, p)], NewBlock(arch, s, n), DoMalloc(arch, s, n).ptr;
            && q == c.addr + HeaderSize(arch) && c in Live(DoMalloc(arch, s, n).s.bs)
            && (q + b.size <= End(arch, c) <==> MovesSafely(arch, s, b.size, n))
            && (End(arch, c) == g.Limit() || exists d :: d in DoMalloc(arch, s, n).s.bs && d.addr == End(arch, c))
  {
    LiveIndex(arch, g, s, p);
    MallocStep(arch, g, s, n);
    MoveFitsIff(arch, g, s, p, n);
    EndsAtHeader(arch, g, DoMalloc(arch, s, n).s.bs, NewBlock(arch, s, n));
  }

  lemma EndsAtHeader(arch: Arch, g: Region, bs: seq<Block>, c: Block)
    requires Tiles(arch, g, bs) && c in bs
    ensures End(arch, c) == g.Limit() || exists d :: d in bs && d.addr == End(arch, c)
  {
    var i :| 0 <= i < |bs| && bs[i] == c;
    if i + 1 < |bs| {
      TilesAdjoin(arch, g, bs, i);
      assert bs[i + 1] in bs;
    }
  }

  /** A move that does not fit: 64 bytes, asked to grow to the largest size, are copied into a block of size 0. */
  lemma CopyOverruns()
    ensures var g := Region(0x40_0000, 0x80_0000);
            var s := DoMalloc(X86, Init(X86, g), 64).s;
            var p := 0x40_0000 + HeaderSize(X86);
            && DoMalloc(X86, Init(X86, g), 64) == Done(s, p) && IsLive(X86, s.bs, p)
            && s.bs[BlockOf(X86, s, p)].size == 64
            && DoMalloc(X86, s, 0xFFFF_FFFF).Done? && NewBlock(X86, s, 0xFFFF_FFFF).size == 0
            && !MoveFits(X86, s, p, 0xFFFF_FFFF)
  {
    var g := Region(0x40_0000, 0x80_0000);
    var s := DoMalloc(X86, Init(X86, g), 64).s;
    var p := 0x40_0000 + HeaderSize(X86);
    var used, rest := Block(0x40_0000, 64, true), Block(0x40_0000 + 20 + 64, 0x80_0000 - 20 - 64 - 20, false);
    assert s.bs == [used, rest];
    assert used in Live(s.bs);
    assert s.bs[1..][0] == rest;
    assert FirstFit(s.bs, 0) == 1;
  }

  lemma LiveIndex(arch: Arch, g: Region, s: State, p: nat)
    requires Tiles(arch, g, s.bs) && p != 0 && IsLive(arch, s.bs, p)
    ensures var i := BlockOf(arch, s, p);
            i < |s.bs| && s.bs[i].used && s.bs[i].addr + HeaderSize(arch) == p
  {
    var b :| b in Live(s.bs) && p == b.addr + HeaderSize(arch);
    var j :| 0 <= j < |s.bs| && s.bs[j] == b;
    IndexOfUnique(arch, g, s.bs, j);
  }

  /** One free of a live pointer: never a panic, and exactly that block stops being live. */
  lemma FreeStep(arch: Arch, g: Region, s: State, p: nat)
    requires Inv(arch, g, s) && p != 0 && IsLive(arch, s.bs, p)
    ensures var i := BlockOf(arch, s, p);
            && DoFree(arch, s, p).Done?
            && Inv(arch, g, DoFree(arch, s, p).s)
            && i < |s.bs| && s.bs[i].addr + HeaderSize(arch) == p
            && Live(DoFree(arch, s, p).s.bs) == Live(s.bs) - {s.bs[i]}
  {
    hide Arch.Wrap, LiveTotal, Tiles, NoTwoFree, FreeAt, Merge, MergeLo, MergeHi, BlockOf;
    LiveIndex(arch, g, s, p);
    var i := BlockOf(arch, s, p);
    FreeKeeps(arch, g, s.bs, i);
    FreeLive(arch, g, s.bs, i);
  }

  /** Every step of every legal run keeps the invariant. */
  lemma StepKeeps(arch: Arch, g: Region, s: State, op: Op)
    requires Inv(arch, g, s) && Legal(arch, s, op)
    requires Do(arch, s, op).Done?
    ensures Inv(arch, g, Do(arch, s, op).s)
  {
    match op
    case Malloc(n) =>
      if n > 0 { MallocStep(arch, g, s, n); }
    case Free(p) =>
      if p != 0 { FreeStep(arch, g, s, p); }
    case Realloc(p, n) =>
      if p == 0 {
        if n > 0 { MallocStep(arch, g, s, n); }
      } else if n == 0 {
        FreeStep(arch, g, s, p);
      } else {
        LiveIndex(arch, g, s, p);
        if s.bs[BlockOf(arch, s, p)].size < n && DoMalloc(arch, s, n).Done? {
          MallocStep(arch, g, s, n);
          FreeStep(arch, g, DoMalloc(arch, s, n).s, p);
        }
      }
  }

  /** The pointer an operation gives up, if any. */
  function Subject(op: Op): nat
  {
    match op
    case Malloc(_) => 0
    case Free(p) => p
    case Realloc(p, _) => p
  }

  /** A step leaves every live block but the one it is given in place. */
  lemma StepLive(arch: Arch, g: Region, s: State, op: Op, b: Block)
    requires Inv(arch, g, s) && Legal(arch, s, op) && Do(arch, s, op).Done?
    requires b in Live(s.bs) && b.addr + HeaderSize(arch) != Subject(op)
    ensures b in Live(Do(arch, s, op).s.bs)
  {
    match op
    case Malloc(n) =>
      if n > 0 { MallocStep(arch, g, s, n); }
    case Free(p) =>
      if p != 0 { FreeStep(arch, g, s, p); }
    case Realloc(p, n) =>
      if p == 0 {
        if n > 0 { MallocStep(arch, g, s, n); }
      } else if n == 0 {
        FreeStep(arch, g, s, p);
      } else {
        LiveIndex(arch, g, s, p);
        if s.bs[BlockOf(arch, s, p)].size < n {
          MallocStep(arch, g, s, n);
          assert IsLive(arch, DoMalloc(arch, s, n).s.bs, p);
          FreeStep(arch, g, DoMalloc(arch, s, n).s, p);
        }
      }
  }

  /** A run of calls, stopped by the first panic. */
  function Run(arch: Arch, s: State, ops: seq<Op>): Outcome
    decreases |ops|
  {
    if ops == [] then Done(s, 0)
    else match Do(arch, s, ops[0])
      case Panic => Panic
      case Done(t, _) => Run(arch, t, ops[1..])
  }

  ghost predicate LegalRun(arch: Arch, s: State, ops: seq<Op>)
    decreases |ops|
  {
    ops == [] ||
    (Legal(arch, s, ops[0]) &&
     (Do(arch, s, ops[0]).Done? ==> LegalRun(arch, Do(arch, s, ops[0]).s, ops[1..])))
  }

  lemma {:induction false} RunKeeps(arch: Arch, g: Region, s: State, ops: seq<Op>)
    requires Inv(arch, g, s) && LegalRun(arch, s, ops)
    requires Run(arch, s, ops).Done?
    ensures Inv(arch, g, Run(arch, s, ops).s)
    decreases |ops|
  {
    if ops != [] {
      StepKeeps(arch, g, s, ops[0]);
      RunKeeps(arch, g, Do(arch, s, ops[0]).s, ops[1..]);
    }
  }

  // ----- the counter -----

  /** The size of the block with payload address p; 0 if there is none. */
  function SizeAt(arch: Arch, s: State, p: nat): nat
  {
    var i := BlockOf(arch, s, p);
    if i < |s.bs| then s.bs[i].size else 0
  }

  /** The call gets a new block from kmalloc. */
  predicate Allocates(arch: Arch, s: State, op: Op)
  {
    match op
    case Malloc(n) => n > 0
    case Free(_) => false
    case Realloc(p, n) => n > 0 && (p == 0 || SizeAt(arch, s, p) < n)
  }

  /** The call gives the block it was passed back to kfree. */
  predicate Releases(arch: Arch, s: State, op: Op)
  {
    match op
    case Malloc(_) => false
    case Free(p) => p != 0
    case Realloc(p, n) => p != 0 && (n == 0 || SizeAt(arch, s, p) < n)
  }

  /** What a call asks for, rounded up to a multiple of 8 in size_t arithmetic. */
  function Asks(arch: Arch, s: State, op: Op): nat
  {
    if !Allocates(arch, s, op) then 0 else AlignUp8(arch, op.n)
  }

  /** The size of the block at the pointer a call returned. */
  function Gets(arch: Arch, s: State, op: Op): nat
  {
    match Do(arch, s, op)
    case Panic => 0
    case Done(t, q) => if Allocates(arch, s, op) then SizeAt(arch, t, q) else 0
  }

  /** The size of the block a call released. */
  function Drops(arch: Arch, s: State, op: Op): nat
  {
    if Releases(arch, s, op) then SizeAt(arch, s, Subject(op)) else 0
  }

  /** kmalloc takes the first free block that holds the rounded request, from its start. */
  lemma MallocTakesFirst(arch: Arch, g: Region, s: State, n: nat)
    requires Inv(arch, g, s) && n > 0 && DoMalloc(arch, s, n).Done?
    ensures exists i :: 0 <= i < |s.bs| && !s.bs[i].used && s.bs[i].size >= AlignUp8(arch, n)
                        && (forall j :: 0 <= j < i ==> s.bs[j].used || s.bs[j].size < AlignUp8(arch, n))
                        && DoMalloc(arch, s, n).ptr == s.bs[i].addr + HeaderSize(arch)
  {
    var r := AlignUp8(arch, n);
    var i := FirstFit(s.bs, r);
    assert forall j :: 0 <= j < i ==> !Fits(s.bs[j], r);
    assert s.bs[i].size >= r;
  }

  /** krealloc stays where it is exactly when the block is large enough already. */
  lemma StaysIff(arch: Arch, g: Region, s: State, p: nat, n: nat)
    requires Inv(arch, g, s) && p != 0 && n > 0 && IsLive(arch, s.bs, p) && DoRealloc(arch, s, p, n).Done?
    ensures DoRealloc(arch, s, p, n).ptr == p <==> SizeAt(arch, s, p) >= n
    ensures SizeAt(arch, s, p) >= n ==> DoRealloc(arch, s, p, n).s == s
  {
    hide DoMalloc, DoFree, Tiles, NoTwoFree;
    LiveIndex(arch, g, s, p);
    var b := s.bs[BlockOf(arch, s, p)];
    assert b in Live(s.bs);
    if b.size < n {
      MallocStep(arch, g, s, n);
      var c := NewBlock(arch, s, n);
      if b.addr == c.addr { SameAddressSameBlock(arch, g, DoMalloc(arch, s, n).s, b, c); }
    }
  }

  /** The counter after a served request has grown by exactly the rounded request, and the new block is that large. */
  lemma MallocCounts(arch: Arch, g: Region, s: State, n: nat)
    requires Inv(arch, g, s) && n > 0 && DoMalloc(arch, s, n).Done?
    ensures var t, q := DoMalloc(arch, s, n).s, DoMalloc(arch, s, n).ptr;
            && t.used == arch.Wrap(s.used + AlignUp8(arch, n))
            && SizeAt(arch, t, q) == NewBlock(arch, s, n).size
            && LiveTotal(t.bs) == LiveTotal(s.bs) + SizeAt(arch, t, q)
            && AlignUp8(arch, n) <= SizeAt(arch, t, q) < AlignUp8(arch, n) + HeaderSize(arch) + 32
  {
    hide Arch.Wrap, AlignUp8, LiveTotal, Tiles, NoTwoFree, FirstFit, Live;
    var r := AlignUp8(arch, n);
    var i := FirstFit(s.bs, r);
    var t, q := DoMalloc(arch, s, n).s, DoMalloc(arch, s, n).ptr;
    AllocTotal(arch, s.bs, i, r);
    MallocStep(arch, g, s, n);
    BlockAt(arch, g, t, NewBlock(arch, s, n));
  }

  lemma BlockAt(arch: Arch, g: Region, s: State, c: Block)
    requires Tiles(arch, g, s.bs) && c in Live(s.bs)
    ensures SizeAt(arch, s, c.addr + HeaderSize(arch)) == c.size
  {
    var i :| 0 <= i < |s.bs| && s.bs[i] == c;
    IndexOfUnique(arch, g, s.bs, i);
  }

  /** The counter after a free has shrunk by exactly the size of the block. */
  lemma FreeCounts(arch: Arch, g: Region, s: State, p: nat)
    requires Inv(arch, g, s) && p != 0 && IsLive(arch, s.bs, p)
    ensures DoFree(arch, s, p).Done?
    ensures var t := DoFree(arch, s, p).s;
            && t.used == arch.Wrap(s.used - SizeAt(arch, s, p))
            && LiveTotal(t.bs) == LiveTotal(s.bs) - SizeAt(arch, s, p)
  {
    hide Arch.Wrap, LiveTotal, Tiles, NoTwoFree, FreeAt, Merge, MergeLo, MergeHi;
    LiveIndex(arch, g, s, p);
    FreeStep(arch, g, s, p);
    FreeKeeps(arch, g, s.bs, BlockOf(arch, s, p));
    FreeTotal(arch, s.bs, BlockOf(arch, s, p));
  }

  /** Every call changes the counter by what it asks for less what it drops, and the live total by what it gets less what it drops. */
  lemma CallCounts(arch: Arch, g: Region, s: State, op: Op)
    requires Inv(arch, g, s) && Legal(arch, s, op) && Do(arch, s, op).Done?
    ensures var t := Do(arch, s, op).s;
            && t.used == arch.Wrap(s.used + Asks(arch, s, op) - Drops(arch, s, op))
            && LiveTotal(t.bs) == LiveTotal(s.bs) + Gets(arch, s, op) - Drops(arch, s, op)
    ensures Allocates(arch, s, op) ==>
              Asks(arch, s, op) <= Gets(arch, s, op) < Asks(arch, s, op) + HeaderSize(arch) + 32
  {
    hide LiveTotal, AlignUp8, Tiles, NoTwoFree, DoMalloc, DoFree, Live, Arch.Wrap, BlockOf, MoveFits, SizeAt;
    WrapId(arch, s.used);
    match op
    case Malloc(n) => if n > 0 { MallocCounts(arch, g, s, n); } else { MallocNone(arch, s); }
    case Free(p) => if p != 0 { FreeCounts(arch, g, s, p); } else { MallocNone(arch, s); }
    case Realloc(p, n) => ReallocCounts(arch, g, s, p, n);
  }

  lemma WrapId(arch: Arch, x: nat)
    requires x < arch.WordMod()
    ensures arch.Wrap(x) == x
  {
  }

  lemma MallocNone(arch: Arch, s: State)
    ensures DoMalloc(arch, s, 0) == DoFree(arch, s, 0) == Done(s, 0)
  {
  }

  lemma ReallocCounts(arch: Arch, g: Region, s: State, p: nat, n: nat)
    requires Inv(arch, g, s) && Legal(arch, s, Realloc(p, n)) && DoRealloc(arch, s, p, n).Done?
    ensures var op, t := Realloc(p, n), DoRealloc(arch, s, p, n).s;
            && t.used == arch.Wrap(s.used + Asks(arch, s, op) - Drops(arch, s, op))
            && LiveTotal(t.bs) == LiveTotal(s.bs) + Gets(arch, s, op) - Drops(arch, s, op)
            && (Allocates(arch, s, op) ==> Asks(arch, s, op) <= Gets(arch, s, op) < Asks(arch, s, op) + HeaderSize(arch) + 32)
  {
    hide LiveTotal, AlignUp8, Tiles, NoTwoFree, DoMalloc, DoFree, Arch.Wrap, MoveFits;
    WrapId(arch, s.used);
    MallocNone(arch, s);
    if p == 0 {
      if n > 0 { MallocCounts(arch, g, s, n); }
    } else {
      LiveIndex(arch, g, s, p);
      if n == 0 {
        FreeCounts(arch, g, s, p);
      } else if SizeAt(arch, s, p) < n {
        MoveCounts(arch, g, s, p, n);
      }
    }
  }

  lemma MoveCounts(arch: Arch, g: Region, s: State, p: nat, n: nat)
    requires Inv(arch, g, s) && p != 0 && n > 0 && IsLive(arch, s.bs, p) && BlockOf(arch, s, p) < |s.bs| && SizeAt(arch, s, p) < n
    requires DoRealloc(arch, s, p, n).Done?
    ensures var t, q := DoRealloc(arch, s, p, n).s, DoRealloc(arch, s, p, n).ptr;
            && t.used == arch.Wrap(s.used + AlignUp8(arch, n) - SizeAt(arch, s, p))
            && LiveTotal(t.bs) == LiveTotal(s.bs) + SizeAt(arch, t, q) - SizeAt(arch, s, p)
            && AlignUp8(arch, n) <= SizeAt(arch, t, q) < AlignUp8(arch, n) + HeaderSize(arch) + 32
  {
    hide LiveTotal, AlignUp8, Tiles, NoTwoFree, DoMalloc, DoFree, Arch.Wrap;
    LiveIndex(arch, g, s, p);
    var b := s.bs[BlockOf(arch, s, p)];
    assert b in Live(s.bs);
    var mid, q := DoMalloc(arch, s, n).s, DoMalloc(arch, s, n).ptr;
    MallocCounts(arch, g, s, n);
    MallocStep(arch, g, s, n);
    var c := NewBlock(arch, s, n);
    assert IsLive(arch, mid.bs, p);
    BlockAt(arch, g, mid, b);
    BlockAt(arch, g, s, b);
    FreeCounts(arch, g, mid, p);
    FreeStep(arch, g, mid, p);
    var t := DoFree(arch, mid, p).s;
    assert mid.bs[BlockOf(arch, mid, p)] != c by {
      if b.addr == c.addr { SameAddressSameBlock(arch, g, mid, b, c); }
    }
    BlockAt(arch, g, t, c);
    WrapWrap(arch, s.used + AlignUp8(arch, n), 0 - (SizeAt(arch, s, p) as int));
  }

  /** Sums over a run of what its calls ask for, get and drop. */
  function TotalAsked(arch: Arch, s: State, ops: seq<Op>): nat
    decreases |ops|
  {
    if ops == [] || Do(arch, s, ops[0]).Panic? then 0
    else Asks(arch, s, ops[0]) + TotalAsked(arch, Do(arch, s, ops[0]).s, ops[1..])
  }

  function TotalGot(arch: Arch, s: State, ops: seq<Op>): nat
    decreases |ops|
  {
    if ops == [] || Do(arch, s, ops[0]).Panic? then 0
    else Gets(arch, s, ops[0]) + TotalGot(arch, Do(arch, s, ops[0]).s, ops[1..])
  }

  function TotalDropped(arch: Arch, s: State, ops: seq<Op>): nat
    decreases |ops|
  {
    if ops == [] || Do(arch, s, ops[0]).Panic? then 0
    else Drops(arch, s, ops[0]) + TotalDropped(arch, Do(arch, s, ops[0]).s, ops[1..])
  }

  lemma {:induction false} RunCounts(arch: Arch, g: Region, s: State, ops: seq<Op>)
    requires Inv(arch, g, s) && LegalRun(arch, s, ops) && Run(arch, s, ops).Done?
    ensures var t := Run(arch, s, ops).s;
            && t.used == arch.Wrap(s.used + TotalAsked(arch, s, ops) - TotalDropped(arch, s, ops))
            && LiveTotal(t.bs) == LiveTotal(s.bs) + TotalGot(arch, s, ops) - TotalDropped(arch, s, ops)
            && TotalAsked(arch, s, ops) <= TotalGot(arch, s, ops)
    decreases |ops|
  {
    hide Do, LiveTotal, Legal, Asks, Gets, Drops, Allocates, Inv, Arch.Wrap;
    if ops == [] {
      CounterFits(arch, g, s);
    } else {
      var t := Do(arch, s, ops[0]).s;
      CallCounts(arch, g, s, ops[0]);
      AsksNothing(arch, s, ops[0]);
      StepKeeps(arch, g, s, ops[0]);
      RunCounts(arch, g, t, ops[1..]);
      WrapWrap(arch, s.used + Asks(arch, s, ops[0]) - Drops(arch, s, ops[0]),
               TotalAsked(arch, t, ops[1..]) - TotalDropped(arch, t, ops[1..]));
    }
  }

  lemma CounterFits(arch: Arch, g: Region, s: State)
    requires Inv(arch, g, s)
    ensures arch.Wrap(s.used) == s.used
  {
  }

  lemma AsksNothing(arch: Arch, s: State, op: Op)
    ensures !Allocates(arch, s, op) ==> Asks(arch, s, op) == 0
  {
  }

  /**
   The accounting law: after any run from heap_init the counter is the sum of the rounded requests
   served less the sizes of the blocks freed, in size_t arithmetic, while the live total is the sum of
   the sizes of the blocks handed out less those freed. So the counter is the live total less the
   slack, what all blocks handed out were larger than the requests, and reports the live total
   exactly when the slack is a multiple of the word size.
   */
  lemma AccountingLaw(arch: Arch, g: Region, ops: seq<Op>)
    requires RegionOk(arch, g) && LegalRun(arch, Init(arch, g), ops)
    requires Run(arch, Init(arch, g), ops).Done?
    ensures var s, t := Init(arch, g), Run(arch, Init(arch, g), ops).s;
            var asked, got, dropped := TotalAsked(arch, s, ops), TotalGot(arch, s, ops), TotalDropped(arch, s, ops);
            && t.used == arch.Wrap(asked - dropped) && LiveTotal(t.bs) == got - dropped
            && asked <= got && t.used == arch.Wrap(LiveTotal(t.bs) - (got - asked))
            && (t.used == LiveTotal(t.bs) <==> arch.Wrap(got - asked) == 0)
  {
    hide Run, LegalRun, LiveTotal, Tiles, NoTwoFree, TotalAsked, TotalGot, TotalDropped, Arch.Wrap;
    var s := Init(arch, g);
    InitInv(arch, g);
    RunKeeps(arch, g, s, ops);
    RunCounts(arch, g, s, ops);
    InitTotal(arch, g);
    var t := Run(arch, s, ops).s;
    LiveTotalBound(arch, g, t.bs);
    WrapSame(arch, LiveTotal(t.bs), TotalGot(arch, s, ops) - TotalAsked(arch, s, ops));
  }

  lemma InitTotal(arch: Arch, g: Region)
    requires RegionOk(arch, g)
    ensures LiveTotal(Init(arch, g).bs) == 0 && Init(arch, g).used == 0
  {
  }

  /** The slack of one allocation comes up to the header size plus 31. */
  lemma SlackReached()
    ensures var g := Region(0x40_0000, 20 + 59);
            var r := DoMalloc(X86, Init(X86, g), 8);
            r.Done? && Gets(X86, Init(X86, g), Malloc(8)) - Asks(X86, Init(X86, g), Malloc(8)) == HeaderSize(X86) + 31
  {
    var g := Region(0x40_0000, 20 + 59);
    var s := Init(X86, g);
    InitInv(X86, g);
    MallocCounts(X86, g, s, 8);
    assert FirstFit(s.bs, 8) == 0;
  }

  /**
   The counter drifts: 40 and 8 bytes are allocated, the 40 are freed, and a request for 8 takes their
   block whole. Two blocks of 48 bytes are live, and the counter says 16.
   */
  lemma CounterDrifts()
    ensures var g, a := Region(0x40_0000, 0x80_0000), 0x40_0000 + 20;
            var r := Run(X86, Init(X86, g), [Malloc(40), Malloc(8), Free(a), Malloc(8)]);
            r.Done? && r.s.used == 16 && LiveTotal(r.s.bs) == 48
  {
    hide Run, Do, LiveTotal, Carve, DoMalloc, DoFree;
    var g, a := Region(0x40_0000, 0x80_0000), 0x40_0000 + 20;
    var ops := [Malloc(40), Malloc(8), Free(a), Malloc(8)];
    var s1, s2, s3, s4 := Drift(40), Drift(48), Drift(8), Drift(16);
    Drift1(Init(X86, g));
    Drift2();
    Drift3();
    Drift4();
    RunFour(Init(X86, g), s1, s2, s3, s4, ops);
    DriftTotal();
  }

  /** The states of that run, told apart by their counter. */
  function Drift(used: nat): State
  {
    var x, y := Block(0x40_0000, 40, true), Block(0x40_003C, 8, true);
    var r1, r2 := Block(0x40_003C, 0x7F_FFB0, false), Block(0x40_0058, 0x7F_FF94, false);
    State(if used == 40 then [x, r1] else if used == 8 then [x.(used := false), y, r2] else [x, y, r2], used)
  }

  lemma Drift1(s: State)
    requires s == State([Block(0x40_0000, 0x80_0000 - 20, false)], 0)
    ensures Do(X86, s, Malloc(40)).Done? && Do(X86, s, Malloc(40)).s == Drift(40)
  {
    Carved(s, 0, 40, Drift(40));
  }

  lemma Drift2()
    ensures Do(X86, Drift(40), Malloc(8)).Done? && Do(X86, Drift(40), Malloc(8)).s == Drift(48)
  {
    Carved(Drift(40), 1, 8, Drift(48));
  }

  lemma Drift3()
    ensures Do(X86, Drift(48), Free(0x40_0014)).Done? && Do(X86, Drift(48), Free(0x40_0014)).s == Drift(8)
  {
    Freed(Drift(48), Drift(8));
  }

  lemma Drift4()
    ensures Do(X86, Drift(8), Malloc(8)).Done? && Do(X86, Drift(8), Malloc(8)).s == Drift(16)
  {
    Carved(Drift(8), 0, 8, Drift(16));
  }

  lemma DriftTotal()
    ensures LiveTotal(Drift(16).bs) == 48
  {
    var bs := Drift(16).bs;
    assert bs[1..][1..] == [bs[2]] && bs[1..][0] == bs[1];
    FreeIsNoTotal(bs[2]);
  }

  lemma Carved(s: State, i: nat, n: nat, t: State)
    requires 0 < n < 1000 && n % 8 == 0 && s.used < 1000 && i < |s.bs| && Fits(s.bs[i], n)
    requires forall j :: 0 <= j < i ==> !Fits(s.bs[j], n)
    requires t.bs == s.bs[..i] + Carve(X86, s.bs[i], n) + s.bs[i + 1..] && t.used == s.used + n
    ensures DoMalloc(X86, s, n).Done? && DoMalloc(X86, s, n).s == t
  {
    assert AlignUp8(X86, n) == n;
    assert FirstFit(s.bs, n) == i;
  }

  lemma Freed(s: State, t: State)
    requires |s.bs| == 3 && s.bs[0].used && s.bs[1].used && s.bs[0].addr == 0x40_0000 && s.bs[0].size == 40 && s.used == 48
    requires t == State(s.bs[0 := s.bs[0].(used := false)], 8)
    ensures DoFree(X86, s, 0x40_0014) == Done(t, 0)
  {
    assert IndexOf(s.bs, 0x40_0000) == 0;
    assert FreeAt(X86, s.bs, 0) == t.bs;
  }

  lemma RunFour(s0: State, s1: State, s2: State, s3: State, s4: State, ops: seq<Op>)
    requires |ops| == 4
    requires Do(X86, s0, ops[0]).Done? && Do(X86, s0, ops[0]).s == s1
    requires Do(X86, s1, ops[1]).Done? && Do(X86, s1, ops[1]).s == s2
    requires Do(X86, s2, ops[2]).Done? && Do(X86, s2, ops[2]).s == s3
    requires Do(X86, s3, ops[3]).Done? && Do(X86, s3, ops[3]).s == s4
    ensures Run(X86, s0, ops) == Done(s4, 0)
  {
    hide Do;
    var o1, o2, o3 := ops[1..], ops[2..], ops[3..];
    assert o1[1..] == o2 && o2[1..] == o3 && o3[1..] == [];
    assert Run(X86, s3, o3) == Run(X86, s4, []);
    assert Run(X86, s2, o2) == Run(X86, s3, o3);
    assert Run(X86, s1, o1) == Run(X86, s2, o2);
  }

  lemma WrapSame(arch: Arch, total: nat, slack: nat)
    requires total < arch.WordMod()
    ensures arch.Wrap(total - slack) == total <==> arch.Wrap(slack) == 0
  {
  }

  lemma {:induction false} LiveTotalBelow(arch: Arch, bs: seq<Block>, lo: nat, hi: nat)
    requires bs != [] ==> bs[0].addr == lo && End(arch, bs[|bs| - 1]) == hi
    requires bs == [] ==> lo <= hi
    requires forall i: nat :: i < |bs| - 1 ==> Adjoins(arch, bs, i)
    ensures LiveTotal(bs) + |bs| * HeaderSize(arch) <= hi - lo
    decreases |bs|
  {
    if |bs| == 1 {
      assert bs[1..] == [];
    } else if |bs| > 1 {
      assert Adjoins(arch, bs, 0);
      forall i: nat | i < |bs[1..]| - 1 ensures Adjoins(arch, bs[1..], i) {
        assert Adjoins(arch, bs, i + 1);
      }
      LiveTotalBelow(arch, bs[1..], End(arch, bs[0]), hi);
    }
  }

  lemma LiveTotalBound(arch: Arch, g: Region, bs: seq<Block>)
    requires RegionOk(arch, g) && Tiles(arch, g, bs)
    ensures LiveTotal(bs) < arch.WordMod()
  {
    LiveTotalBelow(arch, bs, g.start, g.Limit());
  }

  // ----- freeing everything -----

  lemma AloneOrLive(bs: seq<Block>)
    requires NoTwoFree(bs) && bs != []
    ensures (|bs| == 1 && !bs[0].used) || Live(bs) != {}
  {
    assert bs[0].used ==> bs[0] in Live(bs);
    if |bs| > 1 {
      assert OneUsed(bs, 0);
      assert bs[1].used ==> bs[1] in Live(bs);
    }
  }

  /** A well-formed heap with nothing live is the heap that heap_init made. */
  lemma NothingLiveIsInitial(arch: Arch, g: Region, s: State)
    requires Inv(arch, g, s) && Live(s.bs) == {}
    ensures s.bs == Init(arch, g).bs
  {
    AloneOrLive(s.bs);
  }

  lemma SameAddressSameBlock(arch: Arch, g: Region, s: State, b: Block, c: Block)
    requires Tiles(arch, g, s.bs) && b in s.bs && c in s.bs && b.addr == c.addr
    ensures b == c
  {
    var i :| 0 <= i < |s.bs| && s.bs[i] == b;
    var j :| 0 <= j < |s.bs| && s.bs[j] == c;
    IndexOfUnique(arch, g, s.bs, i);
    IndexOfUnique(arch, g, s.bs, j);
  }

  /** Payload addresses of the live blocks. */
  ghost function LivePtrs(arch: Arch, bs: seq<Block>): set<nat>
  {
    set b | b in Live(bs) :: b.addr + HeaderSize(arch)
  }

  /** A free removes exactly its pointer from the live pointers. */
  lemma FreePtrs(arch: Arch, g: Region, s: State, p: nat)
    requires Inv(arch, g, s) && p in LivePtrs(arch, s.bs)
    ensures DoFree(arch, s, p).Done? && Inv(arch, g, DoFree(arch, s, p).s)
    ensures LivePtrs(arch, DoFree(arch, s, p).s.bs) == LivePtrs(arch, s.bs) - {p}
  {
    assert IsLive(arch, s.bs, p);
    FreeStep(arch, g, s, p);
    var t := DoFree(arch, s, p).s;
    var gone := s.bs[BlockOf(arch, s, p)];
    forall b | b in Live(s.bs) && b != gone ensures b.addr != gone.addr {
      if b.addr == gone.addr { SameAddressSameBlock(arch, g, s, b, gone); }
    }
  }

  function Frees(ps: seq<nat>): seq<Op>
  {
    if ps == [] then [] else [Free(ps[0])] + Frees(ps[1..])
  }

  /** Freeing all live blocks, in any order, restores the single free block of the original size. */
  lemma {:induction false} FreeAllRestores(arch: Arch, g: Region, s: State, ps: seq<nat>)
    requires Inv(arch, g, s)
    requires LivePtrs(arch, s.bs) == (set p | p in ps)
    requires Distinct(ps)
    ensures LegalRun(arch, s, Frees(ps))
    ensures Run(arch, s, Frees(ps)).Done?
    ensures Run(arch, s, Frees(ps)).s.bs == Init(arch, g).bs
    decreases |ps|
  {
    if ps == [] {
      assert Live(s.bs) == {} by {
        assert forall b :: b in Live(s.bs) ==> b.addr + HeaderSize(arch) in LivePtrs(arch, s.bs);
      }
      NothingLiveIsInitial(arch, g, s);
    } else {
      FreePtrs(arch, g, s, ps[0]);
      assert LivePtrs(arch, s.bs) - {ps[0]} == (set p | p in ps[1..]);
      FreeAllRestores(arch, g, DoFree(arch, s, ps[0]).s, ps[1..]);
      assert Frees(ps)[1..] == Frees(ps[1..]);
    }
  }
}
