/**
 Clients of the heap that store into what they hold: over every run of calls and stores, every live
 payload holds what its owner last stored there.
 */
module HeapClients {

  import opened Bytes
  import opened Machine
  import opened HeapSpec
  import opened HeapMem
  import opened HeapRun
  import opened Heap

  /** A call of the heap, or a store of one byte at an offset of a payload. */
  datatype Call = Ask(op: Op) | Store(p: nat, k: nat, v: byte)

  /** For each live pointer, the bytes stored there since it was handed out. */
  type Memo = map<nat, map<nat, byte>>

  /** The bytes below an offset. */
  function Below(c: map<nat, byte>, n: nat): map<nat, byte>
  {
    map k | k in c && k < n :: c[k]
  }

  function Put(c: map<nat, byte>, k: nat, v: byte): map<nat, byte>
  {
    var d: map<nat, byte> := c[k := v];
    d
  }

  /** What clients know after a call of the heap that returned q: a move takes the bytes along. */
  function Asked(memo: Memo, op: Op, q: nat): Memo
  {
    match op
    case Malloc(n) => if n == 0 then memo else memo[q := map[]]
    case Free(p) => memo - {p}
    case Realloc(p, n) =>
      if p == 0 then (if n == 0 then memo else memo[q := map[]])
      else if n == 0 || p !in memo then memo - {p}
      else (memo - {p})[q := Below(memo[p], n)]
  }

  datatype Outcome = On(s: State, memo: Memo) | Stopped

  function Next(arch: Arch, s: State, memo: Memo, call: Call): Outcome
  {
    match call
    case Ask(op) =>
      (match Do(arch, s, op)
       case Panic => Stopped
       case Done(t, q) => On(t, Asked(memo, op, q)))
    case Store(p, k, v) => if p in memo then On(s, memo[p := Put(memo[p], k, v)]) else Stopped
  }

  /** The block list and the memory of the clients after a run, stopped by the first panic. */
  function Fold(arch: Arch, s: State, memo: Memo, calls: seq<Call>): Outcome
    decreases |calls|
  {
    if calls == [] then On(s, memo)
    else match Next(arch, s, memo, calls[0])
      case Stopped => Stopped
      case On(t, m) => Fold(arch, t, m, calls[1..])
  }

  ghost predicate Fair(arch: Arch, s: State, call: Call)
  {
    match call
    case Ask(op) => Legal(arch, s, op)
    case Store(p, k, v) => Owns(arch, s.bs, p, k)
  }

  /** Offset k lies in the payload of a live block at p. */
  ghost predicate Owns(arch: Arch, bs: seq<Block>, p: nat, k: nat)
  {
    exists b :: b in Live(bs) && p == b.addr + HeaderSize(arch) && k < b.size
  }

  ghost predicate FairRun(arch: Arch, s: State, memo: Memo, calls: seq<Call>)
    decreases |calls|
  {
    calls == [] ||
    (Fair(arch, s, calls[0]) &&
     match Next(arch, s, memo, calls[0])
     case Stopped => true
     case On(t, m) => FairRun(arch, t, m, calls[1..]))
  }

  // ----- what memory has to show -----

  ghost predicate ByteIs(g: Region, m: seq<byte>, p: nat, k: nat, v: byte)
  {
    g.start <= p && p - g.start + k < |m| && m[p - g.start + k] == v
  }

  /** The payload of b holds the bytes c. */
  ghost predicate Shows(arch: Arch, g: Region, m: seq<byte>, b: Block, c: map<nat, byte>)
  {
    forall k :: k in c ==> k < b.size && ByteIs(g, m, b.addr + HeaderSize(arch), k, c[k])
  }

  ghost predicate Remembers(arch: Arch, g: Region, bs: seq<Block>, m: seq<byte>, memo: Memo)
  {
    && memo.Keys == LivePtrs(arch, bs)
    && forall b :: b in Live(bs) ==> b.addr + HeaderSize(arch) in memo && Shows(arch, g, m, b, memo[b.addr + HeaderSize(arch)])
  }

  lemma ShowsKept(arch: Arch, g: Region, m: seq<byte>, n: seq<byte>, b: Block, c: map<nat, byte>)
    requires Shows(arch, g, m, b, c) && SamePayload(arch, g, m, n, b)
    ensures Shows(arch, g, n, b, c)
  {
  }

  lemma ShowsCopied(arch: Arch, g: Region, m: seq<byte>, n: seq<byte>, b: Block, c: map<nat, byte>, d: Block, k: nat)
    requires Shows(arch, g, m, b, c) && Copied(arch, g, m, n, b, d.addr + HeaderSize(arch), Min(b.size, k))
    requires Min(b.size, k) <= d.size
    ensures Shows(arch, g, n, d, Below(c, k))
  {
    var p, q := b.addr + HeaderSize(arch), d.addr + HeaderSize(arch);
    var x, y := BytesAt(g, m, p, Min(b.size, k)), BytesAt(g, n, q, Min(b.size, k));
    forall i | i in Below(c, k) ensures i < d.size && ByteIs(g, n, q, i, c[i]) {
      assert i < Min(b.size, k) && ByteIs(g, m, p, i, c[i]);
      assert x[i] == y[i];
    }
  }

  /** No two live blocks share a pointer. */
  lemma OnePointer(arch: Arch, g: Region, bs: seq<Block>, b: Block, c: Block)
    requires Tiles(arch, g, bs) && b in Live(bs) && c in Live(bs) && b.addr == c.addr
    ensures b == c
  {
    SameAddressSameBlock(arch, g, State(bs, 0), b, c);
  }

  // ----- one call at a time -----

  /** A new block starts with nothing stored in it. */
  lemma AfterMalloc(arch: Arch, g: Region, s: State, n: nat, m0: seq<byte>, m1: seq<byte>, memo: Memo)
    requires Inv(arch, g, s) && n > 0 && DoMalloc(arch, s, n).Done?
    requires Remembers(arch, g, s.bs, m0, memo)
    requires forall b :: b in Live(s.bs) ==> SamePayload(arch, g, m0, m1, b)
    ensures var t, q := DoMalloc(arch, s, n).s, DoMalloc(arch, s, n).ptr;
            Remembers(arch, g, t.bs, m1, memo[q := map[]])
  {
    hide SamePayload, Live, DoMalloc, Tiles, Shows;
    MallocStep(arch, g, s, n);
    var t, q, c := DoMalloc(arch, s, n).s, DoMalloc(arch, s, n).ptr, NewBlock(arch, s, n);
    assert LivePtrs(arch, t.bs) == LivePtrs(arch, s.bs) + {q};
    forall b | b in Live(t.bs)
      ensures Shows(arch, g, m1, b, memo[q := map[]][b.addr + HeaderSize(arch)])
    {
      if b != c {
        if b.addr == c.addr { OnePointer(arch, g, t.bs, b, c); }
        ShowsKept(arch, g, m0, m1, b, memo[b.addr + HeaderSize(arch)]);
      } else {
        ShowsNothing(arch, g, m1, b);
      }
    }
  }

  lemma ShowsNothing(arch: Arch, g: Region, m: seq<byte>, b: Block)
    ensures Shows(arch, g, m, b, map[])
  {
  }

  lemma AfterFree(arch: Arch, g: Region, s: State, p: nat, m0: seq<byte>, m1: seq<byte>, memo: Memo)
    requires Inv(arch, g, s) && p != 0 && IsLive(arch, s.bs, p)
    requires Remembers(arch, g, s.bs, m0, memo)
    requires forall b :: b in Live(s.bs) && b.addr + HeaderSize(arch) != p ==> SamePayload(arch, g, m0, m1, b)
    ensures DoFree(arch, s, p).Done? && Remembers(arch, g, DoFree(arch, s, p).s.bs, m1, memo - {p})
  {
    hide SamePayload, DoFree, Tiles, Shows;
    assert p in LivePtrs(arch, s.bs);
    FreeStep(arch, g, s, p);
    FreePtrs(arch, g, s, p);
    var t := DoFree(arch, s, p).s;
    hide Live;
    forall b | b in Live(t.bs) ensures Shows(arch, g, m1, b, (memo - {p})[b.addr + HeaderSize(arch)]) {
      assert b.addr + HeaderSize(arch) in LivePtrs(arch, t.bs);
      ShowsKept(arch, g, m0, m1, b, memo[b.addr + HeaderSize(arch)]);
    }
  }

  lemma NoNullPointer(arch: Arch, bs: seq<Block>)
    ensures 0 !in LivePtrs(arch, bs)
  {
  }

  /** A moved block shows what the old one showed, as far as the new size goes. */
  lemma AfterRealloc(arch: Arch, g: Region, s: State, p: nat, n: nat, m0: seq<byte>, m1: seq<byte>, memo: Memo)
    requires Inv(arch, g, s) && p != 0 && n != 0 && IsLive(arch, s.bs, p) && MoveFits(arch, s, p, n)
    requires DoRealloc(arch, s, p, n).Done? && Remembers(arch, g, s.bs, m0, memo)
    requires forall b :: b in Live(s.bs) && b.addr + HeaderSize(arch) != p ==> SamePayload(arch, g, m0, m1, b)
    requires forall b :: b in Live(s.bs) && b.addr + HeaderSize(arch) == p ==>
               Copied(arch, g, m0, m1, b, DoRealloc(arch, s, p, n).ptr, Min(b.size, n))
    ensures Remembers(arch, g, DoRealloc(arch, s, p, n).s.bs, m1, Asked(memo, Realloc(p, n), DoRealloc(arch, s, p, n).ptr))
  {
    hide SamePayload, Shows, Copied, Below, DoMalloc, DoFree, Tiles, DoRealloc, Live, LivePtrs, BlockOf, MoveFits, NewBlock, IsLive, Inv, Remembers;
    OldBlock(arch, g, s, p, n);
    Moved(arch, g, s, p, n);
    KnownLive(arch, g, s, m0, memo, p);
    var b, q := s.bs[BlockOf(arch, s, p)], DoRealloc(arch, s, p, n).ptr;
    var d := if b.size >= n then b else NewBlock(arch, s, n);
    Known(arch, g, s.bs, m0, memo, b);
    ShowsCopied(arch, g, m0, m1, b, memo[p], d, n);
    Swapped(arch, g, s.bs, DoRealloc(arch, s, p, n).s.bs, m0, m1, memo, p, d, Below(memo[p], n));
  }

  lemma Known(arch: Arch, g: Region, bs: seq<Block>, m: seq<byte>, memo: Memo, b: Block)
    requires Remembers(arch, g, bs, m, memo) && b in Live(bs)
    ensures b.addr + HeaderSize(arch) in memo && Shows(arch, g, m, b, memo[b.addr + HeaderSize(arch)])
  {
    hide Shows, Live;
  }

  lemma OldBlock(arch: Arch, g: Region, s: State, p: nat, n: nat)
    requires Inv(arch, g, s) && p != 0 && n != 0 && IsLive(arch, s.bs, p) && DoRealloc(arch, s, p, n).Done?
    ensures BlockOf(arch, s, p) < |s.bs|
    ensures var b := s.bs[BlockOf(arch, s, p)];
            b in Live(s.bs) && b.addr + HeaderSize(arch) == p && (b.size < n ==> DoMalloc(arch, s, n).Done?)
  {
    hide Tiles, DoMalloc, DoFree;
    LiveIndex(arch, g, s, p);
  }

  /** The block at p gives way to d, which shows c; every other one keeps its payload. */
  lemma Swapped(arch: Arch, g: Region, bs: seq<Block>, cs: seq<Block>, m0: seq<byte>, m1: seq<byte>, memo: Memo, p: nat, d: Block, c: map<nat, byte>)
    requires Remembers(arch, g, bs, m0, memo) && d in Live(cs) && Shows(arch, g, m1, d, c)
    requires LivePtrs(arch, cs) == LivePtrs(arch, bs) - {p} + {d.addr + HeaderSize(arch)}
    requires forall b :: b in Live(cs) && b != d ==>
               b in Live(bs) && b.addr + HeaderSize(arch) != p && b.addr + HeaderSize(arch) != d.addr + HeaderSize(arch)
    requires forall b :: b in Live(bs) && b.addr + HeaderSize(arch) != p ==> SamePayload(arch, g, m0, m1, b)
    ensures Remembers(arch, g, cs, m1, (memo - {p})[d.addr + HeaderSize(arch) := c])
  {
    hide SamePayload, Shows, Live, LivePtrs;
    var after := (memo - {p})[d.addr + HeaderSize(arch) := c];
    forall b | b in Live(cs) ensures b.addr + HeaderSize(arch) in after && Shows(arch, g, m1, b, after[b.addr + HeaderSize(arch)]) {
      if b != d { ShowsKept(arch, g, m0, m1, b, memo[b.addr + HeaderSize(arch)]); }
    }
  }

  lemma PtrsMore(arch: Arch, bs: seq<Block>, cs: seq<Block>, d: Block)
    requires Live(cs) == Live(bs) + {d}
    ensures LivePtrs(arch, cs) == LivePtrs(arch, bs) + {d.addr + HeaderSize(arch)}
  {
    hide Live;
  }

  /** The live blocks after a krealloc: one at the returned pointer in place of the one at p. */
  lemma Moved(arch: Arch, g: Region, s: State, p: nat, n: nat)
    requires Inv(arch, g, s) && p != 0 && n != 0 && IsLive(arch, s.bs, p) && MoveFits(arch, s, p, n)
    requires DoRealloc(arch, s, p, n).Done? && BlockOf(arch, s, p) < |s.bs|
    requires s.bs[BlockOf(arch, s, p)].size < n ==> DoMalloc(arch, s, n).Done?
    ensures var b, t, q := s.bs[BlockOf(arch, s, p)], DoRealloc(arch, s, p, n).s, DoRealloc(arch, s, p, n).ptr;
            var d := if b.size >= n then b else NewBlock(arch, s, n);
            && d.addr + HeaderSize(arch) == q && Min(b.size, n) <= d.size && d in Live(t.bs)
            && LivePtrs(arch, t.bs) == LivePtrs(arch, s.bs) - {p} + {q}
            && forall c :: c in Live(t.bs) && c != d ==>
                 c in Live(s.bs) && c.addr + HeaderSize(arch) != p && c.addr + HeaderSize(arch) != q
  {
    hide DoMalloc, DoFree, Tiles;
    LiveIndex(arch, g, s, p);
    var b := s.bs[BlockOf(arch, s, p)];
    var t := DoRealloc(arch, s, p, n).s;
    assert b in Live(s.bs);
    forall c | c in Live(s.bs) && c.addr == b.addr ensures c == b { OnePointer(arch, g, s.bs, b, c); }
    if b.size < n {
      MallocStep(arch, g, s, n);
      var mid, d := DoMalloc(arch, s, n).s, NewBlock(arch, s, n);
      assert IsLive(arch, mid.bs, p) && p in LivePtrs(arch, mid.bs);
      FreeStep(arch, g, mid, p);
      FreePtrs(arch, g, mid, p);
      hide Live;
      forall c | c in Live(mid.bs) && c.addr == d.addr ensures c == d { OnePointer(arch, g, mid.bs, d, c); }
      PtrsMore(arch, s.bs, mid.bs, d);
    }
  }

  // ----- whole runs on the bytes -----

  /** One call: memory goes on showing what the clients know. */
  method Perform(h: Heap, call: Call, ghost memo: Memo) returns (ok: bool, ghost after: Memo)
    requires h.Valid() && Fair(h.arch, h.Model(), call) && Remembers(h.arch, h.g, h.bs, h.mem[..], memo)
    modifies h, h.mem
    ensures h.Valid()
    ensures match Next(h.arch, old(h.Model()), memo, call)
            case Stopped => !ok
            case On(s, m) => ok && h.Model() == s && after == m && Remembers(h.arch, h.g, h.bs, h.mem[..], after)
  {
    hide Remembers, Legal, Do;
    after := memo;
    match call {
      case Ask(op) =>
        var q;
        ok, q := h.Perform(op);
        after := Asked(memo, op, q);
        if ok { AskedShown(h.arch, h.g, old(h.Model()), op, old(h.mem[..]), h.mem[..], memo); }
      case Store(p, k, v) =>
        ok := true;
        StoreByte(h, p, k, v, memo);
        after := memo[p := Put(memo[p], k, v)];
    }
  }

  lemma AskedShown(arch: Arch, g: Region, s: State, op: Op, m0: seq<byte>, m1: seq<byte>, memo: Memo)
    requires Inv(arch, g, s) && Legal(arch, s, op) && Do(arch, s, op).Done? && Remembers(arch, g, s.bs, m0, memo)
    requires forall b :: b in Live(s.bs) && b.addr + HeaderSize(arch) != Subject(op) ==> SamePayload(arch, g, m0, m1, b)
    requires op.Realloc? && op.p != 0 && op.n != 0 ==>
               forall b :: b in Live(s.bs) && b.addr + HeaderSize(arch) == op.p ==>
                 Copied(arch, g, m0, m1, b, Do(arch, s, op).ptr, Min(b.size, op.n))
    ensures Remembers(arch, g, Do(arch, s, op).s.bs, m1, Asked(memo, op, Do(arch, s, op).ptr))
  {
    hide SamePayload, Shows, Copied, DoMalloc, DoFree, DoRealloc, Tiles, MoveFits, Live, Remembers;
    NoNullPointer(arch, s.bs);
    NobodyAtNull(arch, s.bs);
    match op
    case Malloc(n) => if n > 0 { AfterMalloc(arch, g, s, n, m0, m1, memo); } else { Untouched(arch, g, s, op, m0, m1, memo); }
    case Free(p) => if p != 0 { AfterFree(arch, g, s, p, m0, m1, memo); } else { Untouched(arch, g, s, op, m0, m1, memo); }
    case Realloc(p, n) =>
      if p == 0 {
        ReallocNull(arch, s, n);
        if n > 0 { AfterMalloc(arch, g, s, n, m0, m1, memo); } else { Untouched(arch, g, s, op, m0, m1, memo); }
      } else if n == 0 {
        ReallocZero(arch, s, p);
        AfterFree(arch, g, s, p, m0, m1, memo);
      } else {
        KnownLive(arch, g, s, m0, memo, p);
        AfterRealloc(arch, g, s, p, n, m0, m1, memo);
      }
  }

  lemma NobodyAtNull(arch: Arch, bs: seq<Block>)
    ensures forall b :: b in Live(bs) ==> b.addr + HeaderSize(arch) != 0
  {
  }

  lemma ReallocNull(arch: Arch, s: State, n: nat)
    ensures DoRealloc(arch, s, 0, n) == DoMalloc(arch, s, n)
  {
  }

  lemma ReallocZero(arch: Arch, s: State, p: nat)
    requires p != 0
    ensures DoRealloc(arch, s, p, 0) == DoFree(arch, s, p)
  {
  }

  lemma KnownLive(arch: Arch, g: Region, s: State, m: seq<byte>, memo: Memo, p: nat)
    requires Remembers(arch, g, s.bs, m, memo) && IsLive(arch, s.bs, p)
    ensures p in memo
  {
  }

  /** A call that asks for nothing changes nothing. */
  lemma Untouched(arch: Arch, g: Region, s: State, op: Op, m0: seq<byte>, m1: seq<byte>, memo: Memo)
    requires op == Malloc(0) || op == Free(0) || op == Realloc(0, 0)
    requires Remembers(arch, g, s.bs, m0, memo)
    requires forall b :: b in Live(s.bs) ==> SamePayload(arch, g, m0, m1, b)
    ensures Remembers(arch, g, Do(arch, s, op).s.bs, m1, Asked(memo, op, Do(arch, s, op).ptr))
  {
    hide Remembers;
    NoNullPointer(arch, s.bs);
    StillRemembers(arch, g, s.bs, m0, m1, memo);
    WithoutNull(arch, g, s.bs, m1, memo);
  }

  lemma WithoutNull(arch: Arch, g: Region, bs: seq<Block>, m: seq<byte>, memo: Memo)
    requires Remembers(arch, g, bs, m, memo)
    ensures memo - {0} == memo
  {
    NoNullPointer(arch, bs);
  }

  lemma StillRemembers(arch: Arch, g: Region, bs: seq<Block>, m0: seq<byte>, m1: seq<byte>, memo: Memo)
    requires Remembers(arch, g, bs, m0, memo)
    requires forall b :: b in Live(bs) ==> SamePayload(arch, g, m0, m1, b)
    ensures Remembers(arch, g, bs, m1, memo)
  {
    hide SamePayload, Shows, Live;
    forall b | b in Live(bs) ensures Shows(arch, g, m1, b, memo[b.addr + HeaderSize(arch)]) {
      ShowsKept(arch, g, m0, m1, b, memo[b.addr + HeaderSize(arch)]);
    }
  }

  method StoreByte(h: Heap, p: nat, k: nat, v: byte, ghost memo: Memo)
    requires h.Valid() && Owns(h.arch, h.bs, p, k) && Remembers(h.arch, h.g, h.bs, h.mem[..], memo)
    modifies h.mem
    ensures h.Valid() && p in memo && Remembers(h.arch, h.g, h.bs, h.mem[..], memo[p := Put(memo[p], k, v)])
  {
    hide SamePayload, Shows, Tiles, Linked, NoTwoFree;
    ghost var b :| b in Live(h.bs) && p == b.addr + HeaderSize(h.arch) && k < b.size;
    assert p in LivePtrs(h.arch, h.bs);
    h.Write(b, p, k, v);
    Stored(h.arch, h.g, h.bs, old(h.mem[..]), h.mem[..], memo, b, k, v);
  }

  lemma Stored(arch: Arch, g: Region, bs: seq<Block>, m0: seq<byte>, m1: seq<byte>, memo: Memo, b: Block, k: nat, v: byte)
    requires Tiles(arch, g, bs) && Remembers(arch, g, bs, m0, memo) && b in Live(bs) && k < b.size
    requires forall c :: c in Live(bs) && c != b ==> SamePayload(arch, g, m0, m1, c)
    requires var p := b.addr + HeaderSize(arch);
             g.start <= p && p - g.start + k < |m0| && m1 == m0[p - g.start + k := v]
    ensures var p := b.addr + HeaderSize(arch);
            p in memo && Remembers(arch, g, bs, m1, memo[p := Put(memo[p], k, v)])
  {
    hide SamePayload, Live;
    var p := b.addr + HeaderSize(arch);
    var after := memo[p := Put(memo[p], k, v)];
    forall c | c in Live(bs) ensures Shows(arch, g, m1, c, after[c.addr + HeaderSize(arch)]) {
      if c != b {
        if c.addr == b.addr { OnePointer(arch, g, bs, b, c); }
        ShowsKept(arch, g, m0, m1, c, memo[c.addr + HeaderSize(arch)]);
      }
    }
  }

  /**
   A whole run of kmalloc, kfree, krealloc and stores, from heap_init: the block list and what the
   clients know are the fold of the calls, and every live payload shows, at every offset stored to
   since it was handed out, the byte last stored there, moves by krealloc included.
   */
  method PerformAll(h: Heap, calls: seq<Call>) returns (ok: bool, ghost memo: Memo)
    requires h.Valid() && Live(h.bs) == {} && FairRun(h.arch, h.Model(), map[], calls)
    modifies h, h.mem
    ensures h.Valid()
    ensures match Fold(h.arch, old(h.Model()), map[], calls)
            case Stopped => !ok
            case On(s, m) => ok && h.Model() == s && memo == m && Remembers(h.arch, h.g, h.bs, h.mem[..], memo)
  {
    hide Next, Remembers, Fair, Live;
    memo := map[];
    NothingKnown(h.arch, h.g, h.bs, h.mem[..]);
    ghost var s0 := h.Model();
    assert calls[0..] == calls;
    for i := 0 to |calls|
      invariant h.Valid() && FairRun(h.arch, h.Model(), memo, calls[i..])
      invariant Fold(h.arch, s0, map[], calls) == Fold(h.arch, h.Model(), memo, calls[i..])
      invariant Remembers(h.arch, h.g, h.bs, h.mem[..], memo)
    {
      assert calls[i..][0] == calls[i] && calls[i..][1..] == calls[i + 1..];
      ok, memo := Perform(h, calls[i], memo);
      if !ok { return; }
    }
    return true, memo;
  }

  lemma NothingKnown(arch: Arch, g: Region, bs: seq<Block>, m: seq<byte>)
    requires Live(bs) == {}
    ensures Remembers(arch, g, bs, m, map[])
  {
    hide Live;
  }
}
