/**
 The keyboard ring: filled by the interrupt handler, which may run between any two
 machine-visible actions of the poller that empties it.
 */
module Keyboard {

  import opened Bytes

  const SIZE: nat := 128

  datatype Event = Event(scancode: byte, ascii: byte, modifiers: bv8, pressed: bool)

  // ----- what a scan code means -----

  const SHIFT: bv8 := 1
  const CTRL: bv8 := 2
  const ALT: bv8 := 4
  const CAPS: bv8 := 8

  predicate Has(mods: bv8, bit: bv8) { mods & bit != 0 }

  predicate Modifier(bit: bv8) { bit == SHIFT || bit == CTRL || bit == ALT || bit == CAPS }

  /** One modifier switched on or off; the other three stay as they were. */
  function With(mods: bv8, bit: bv8, on: bool): (m: bv8)
    requires Modifier(bit)
    ensures Has(m, bit) == on
    ensures forall b :: Modifier(b) && b != bit ==> Has(m, b) == Has(mods, b)
  {
    if on then mods | bit else mods & !bit
  }

  /** The two tests the handler makes for caps lock, one after the other. */
  function Capped(c: byte): byte
  {
    var d: byte := if 97 <= c <= 122 then c - 32 else c;
    if 65 <= d <= 90 then d + 32 else d
  }

  /** Caps lock never makes an upper-case letter: every letter comes out lower-case. */
  lemma CapsLowers(c: byte)
    ensures Capped(c) == if 65 <= c <= 90 then c + 32 else c
    ensures !(65 <= Capped(c) <= 90)
  {
  }

  /** The character tables, indexed by scan code. */
  datatype Tables = Tables(plain: seq<byte>, shifted: seq<byte>) {
    predicate Ok() { |plain| == 128 && |shifted| == 128 }
  }

  function Ascii(t: Tables, code: byte, mods: bv8): byte
    requires t.Ok() && code < 128
  {
    var c := if Has(mods, SHIFT) then t.shifted[code] else t.plain[code];
    if Has(mods, CAPS) then Capped(c) else c
  }

  /** Which character a key gives: from the shifted table with shift, in small letters with caps lock. */
  lemma CharacterOf(t: Tables, code: byte, mods: bv8)
    requires t.Ok() && code < 128
    ensures var c := if mods & 1 == 1 then t.shifted[code] else t.plain[code];
            Ascii(t, code, mods) == if mods & 8 == 8 && 65 <= c <= 90 then c + 32 else c
  {
    BitOne(mods);
    CapsLowers(if mods & 1 == 1 then t.shifted[code] else t.plain[code]);
  }

  lemma BitOne(mods: bv8)
    ensures (mods & 1 != 0 <==> mods & 1 == 1) && (mods & 8 != 0 <==> mods & 8 == 8)
  {
  }

  /** The modifiers after a scan code, and the event it produces, if any. */
  datatype Effect = Effect(mods: bv8, made: seq<Event>)

  predicate IsModifier(code: byte) { code == 0x2A || code == 0x36 || code == 0x1D || code == 0x38 || code == 0x3A }

  /** What the press or release of a modifier key makes of the modifiers. */
  function NewMods(mods: bv8, code: byte, pressed: bool): bv8
    requires IsModifier(code)
  {
    if code == 0x2A || code == 0x36 then With(mods, SHIFT, pressed)
    else if code == 0x1D then With(mods, CTRL, pressed)
    else if code == 0x38 then With(mods, ALT, pressed)
    else if pressed then mods ^ CAPS else mods
  }

  function Decode(t: Tables, sc: byte, mods: bv8): (r: Effect)
    requires t.Ok()
    ensures |r.made| <= 1
  {
    var pressed, code := sc < 0x80, sc % 0x80;
    if sc == 0xE0 then Effect(mods, [])
    else if IsModifier(code) then Effect(NewMods(mods, code, pressed), [])
    else if pressed then Effect(mods, [Event(code, Ascii(t, code, mods), mods, true)])
    else Effect(mods, [])
  }

  /** An event is made exactly by the press of a key that is no modifier, with the modifiers then held. */
  lemma DecodeMakes(t: Tables, sc: byte, mods: bv8)
    requires t.Ok()
    ensures var r := Decode(t, sc, mods);
            && (r.made != [] <==> sc < 0x80 && sc !in {0x2A, 0x36, 0x1D, 0x38, 0x3A})
            && (r.made != [] ==> r.mods == mods && r.made[0].scancode == sc && r.made[0].modifiers == mods && r.made[0].pressed)
  {
    hide Ascii, With;
  }

  // ----- modifiers over a sequence of scan codes -----

  function ModsAfter(t: Tables, scs: seq<byte>, mods: bv8): bv8
    requires t.Ok()
  {
    if scs == [] then mods else Decode(t, scs[|scs| - 1], ModsAfter(t, scs[..|scs| - 1], mods)).mods
  }

  /** The scan code, pressed or released, of a key for a modifier that is held. */
  predicate KeyFor(sc: byte, bit: bv8)
  {
    var code := sc % 0x80;
    if bit == SHIFT then code == 0x2A || code == 0x36 else if bit == CTRL then code == 0x1D else code == 0x38
  }

  /** The last key for a modifier was pressed rather than released; was, if there is none. */
  function LastPressed(scs: seq<byte>, bit: bv8, was: bool): bool
  {
    if scs == [] then was
    else if KeyFor(scs[|scs| - 1], bit) then scs[|scs| - 1] < 0x80
    else LastPressed(scs[..|scs| - 1], bit, was)
  }

  function CapsPresses(scs: seq<byte>): nat
  {
    if scs == [] then 0 else CapsPresses(scs[..|scs| - 1]) + (if scs[|scs| - 1] == 0x3A then 1 else 0)
  }

  lemma Toggled(mods: bv8)
    ensures Has(mods ^ CAPS, CAPS) != Has(mods, CAPS)
    ensures forall b :: Modifier(b) && b != CAPS ==> Has(mods ^ CAPS, b) == Has(mods, b)
  {
  }

  lemma DecodeMods(t: Tables, sc: byte, mods: bv8, bit: bv8)
    requires t.Ok() && Modifier(bit)
    ensures var m := Decode(t, sc, mods).mods;
            && (bit != CAPS ==> Has(m, bit) == if KeyFor(sc, bit) then sc < 0x80 else Has(mods, bit))
            && (bit == CAPS ==> Has(m, CAPS) == (Has(mods, CAPS) != (sc == 0x3A)))
  {
    hide With, Ascii, Has;
    Toggled(mods);
  }

  /**
   After any scan codes shift, control or alt is on exactly when the last of its keys in the sequence
   was pressed, so releasing one shift key ends shift while the other is held; caps lock is on
   after an odd number of presses.
   */
  lemma {:induction false} Held(t: Tables, scs: seq<byte>, mods: bv8, bit: bv8)
    requires t.Ok() && Modifier(bit)
    ensures var m := ModsAfter(t, scs, mods);
            && (bit != CAPS ==> Has(m, bit) == LastPressed(scs, bit, Has(mods, bit)))
            && (bit == CAPS ==> Has(m, CAPS) == (Has(mods, CAPS) != (CapsPresses(scs) % 2 == 1)))
    decreases |scs|
  {
    hide Decode, Has;
    if scs != [] {
      var front := scs[..|scs| - 1];
      Held(t, front, mods, bit);
      DecodeMods(t, scs[|scs| - 1], ModsAfter(t, front, mods), bit);
    }
  }

  // ----- the ring -----

  /** e with its first k fields taken from f: a copy of a structure that is k fields along. */
  function Blend(e: Event, f: Event, k: nat): Event
  {
    Event(if k > 0 then f.scancode else e.scancode, if k > 1 then f.ascii else e.ascii,
          if k > 2 then f.modifiers else e.modifiers, if k > 3 then f.pressed else e.pressed)
  }

  /** Where keyboard_poll is: not called, past the load of khead, or k fields into the copy of the event. */
  datatype Pc = Idle | Loaded(h: nat) | Copying(k: nat, evt: Event)

  datatype Answer = Nothing | Empty | Got(evt: Event)

  /** One atomic action: the handler for a scan code, or the next action of the poller. */
  datatype Action = Interrupt(sc: byte) | Poll(garbage: Event)

  // ----- the ring as a bounded queue -----

  datatype Phase = Resting | Looking(seen: nat) | Taking(k: nat)

  /** The modifiers, every event accepted so far, how many were polled, and where the poller is. */
  datatype Fifo = Fifo(mods: bv8, accepted: seq<Event>, polled: nat, phase: Phase)

  /** One action on a queue of at most 127 events: an event offered to a full queue is dropped. */
  function FifoNext(t: Tables, f: Fifo, a: Action): Fifo
    requires t.Ok()
  {
    match a
    case Interrupt(sc) =>
      var r := Decode(t, sc, f.mods);
      f.(mods := r.mods, accepted := if |f.accepted| - f.polled < 127 then f.accepted + r.made else f.accepted)
    case Poll(_) =>
      (match f.phase
       case Resting => f.(phase := Looking(|f.accepted|))
       case Looking(seen) => f.(phase := if seen == f.polled then Resting else Taking(0))
       case Taking(k) => if k < 4 then f.(phase := Taking(k + 1)) else f.(polled := f.polled + 1, phase := Resting))
  }

  function FifoAll(t: Tables, f: Fifo, actions: seq<Action>): Fifo
    requires t.Ok()
  {
    if actions == [] then f else FifoNext(t, FifoAll(t, f, actions[..|actions| - 1]), actions[|actions| - 1])
  }

  /** All events the scan codes of some actions make. */
  function Offered(t: Tables, mods: bv8, actions: seq<Action>): seq<Event>
    requires t.Ok()
  {
    if actions == [] then []
    else
      var front, last := actions[..|actions| - 1], actions[|actions| - 1];
      if last.Poll? then Offered(t, mods, front)
      else Offered(t, mods, front) + Decode(t, last.sc, ModsAfter(t, Codes(front), mods)).made
  }

  /** The modifiers of the queue are those of the scan codes. */
  lemma {:induction false} FifoMods(t: Tables, f: Fifo, actions: seq<Action>)
    requires t.Ok()
    ensures FifoAll(t, f, actions).mods == ModsAfter(t, Codes(actions), f.mods)
    decreases |actions|
  {
    hide Decode;
    if actions != [] {
      FifoMods(t, f, actions[..|actions| - 1]);
      CodesSnoc(actions, |actions| - 1);
      assert actions[..|actions|] == actions;
    }
  }

  /**
   As long as the events offered fit beside those held, none is refused, whatever the poller does
   meanwhile: the accepted events are all events the scan codes make.
   */
  lemma {:induction false} NoneRefused(t: Tables, f: Fifo, actions: seq<Action>)
    requires t.Ok() && |f.accepted| - f.polled + |Offered(t, f.mods, actions)| <= 127
    ensures FifoAll(t, f, actions).accepted == f.accepted + Offered(t, f.mods, actions)
    ensures FifoAll(t, f, actions).polled >= f.polled
    decreases |actions|
  {
    hide Decode;
    if actions != [] {
      var front := actions[..|actions| - 1];
      NoneRefused(t, f, front);
      FifoMods(t, f, front);
    }
  }

  /** The slot of the i-th event ever accepted. */
  function Slot(i: nat): (s: nat)
    ensures s < SIZE
  {
    i % SIZE
  }

  /** The slot after the head is the tail exactly when 127 events are held; the head is the tail exactly when none is. */
  lemma WrapIff(a: nat, p: nat)
    requires p <= a <= p + 127
    ensures (Slot(a) + 1) % SIZE == Slot(a + 1)
    ensures Slot(a + 1) == Slot(p) <==> a == p + 127
    ensures Slot(a) == Slot(p) <==> a == p
  {
  }

  class Keyboard {
    const t: Tables
    const kbuf: array<Event>
    var khead: nat
    var ktail: nat
    var modifiers: bv8
    var extended: bool
    var pc: Pc
    /** Every event a push accepted, every event a poll returned, and the load of khead as a count. */
    ghost var accepted: seq<Event>
    ghost var polled: seq<Event>
    ghost var seen: nat

    /** Buffered events sit in their slots. */
    ghost predicate Stored()
      requires kbuf.Length == SIZE
      reads this`polled, this`accepted, kbuf
    {
      forall i :: |polled| <= i < |accepted| ==> kbuf[Slot(i)] == accepted[i]
    }

    ghost predicate PcOk()
      reads this`pc, this`seen, this`polled, this`accepted
    {
      match pc
      case Idle => true
      case Loaded(h) => |polled| <= seen <= |accepted| && h == Slot(seen)
      case Copying(k, evt) => k <= 4 && |polled| < |accepted| && evt == Blend(evt, accepted[|polled|], k)
    }

    /** What was polled, followed by what is buffered, is what was accepted. */
    ghost predicate Valid()
      reads this, kbuf
    {
      && t.Ok() && kbuf.Length == SIZE
      && polled <= accepted && |accepted| <= |polled| + 127
      && khead == Slot(|accepted|) && ktail == Slot(|polled|)
      && Stored() && PcOk()
    }

    ghost function Abstract(): Fifo
      reads this
    {
      Fifo(modifiers, accepted, |polled|,
           match pc case Idle => Resting case Loaded(_) => Looking(seen) case Copying(k, _) => Taking(k))
    }

    constructor (t: Tables, kbuf: array<Event>)
      requires t.Ok() && kbuf.Length == SIZE
      ensures Valid() && polled == [] && Abstract() == Fifo(0, [], 0, Resting)
      ensures this.t == t && this.kbuf == kbuf
    {
      this.t, this.kbuf := t, kbuf;
      khead, ktail, modifiers, extended, pc := 0, 0, 0, false, Idle;
      accepted, polled, seen := [], [], 0;
    }

    /** kbuf_push: refused exactly when 127 events are held. */
    method Push(e: Event) returns (ok: bool)
      requires Valid()
      modifies kbuf, this`khead, this`accepted
      ensures Valid()
      ensures ok == (old(|accepted| - |polled|) < 127)
      ensures accepted == if ok then old(accepted) + [e] else old(accepted)
    {
      hide Slot;
      var next := (khead + 1) % SIZE;
      WrapIff(|accepted|, |polled|);
      if next == ktail { return false; }
      kbuf[khead] := e;
      khead := next;
      SlotsApart(|polled|, |accepted|);
      accepted := accepted + [e];
      return true;
    }

    /** The character of a key: the two tables, and the two tests for caps lock one after the other. */
    method Character(code: byte) returns (c: byte)
      requires t.Ok() && code < 128
      ensures c == Ascii(t, code, modifiers)
    {
      hide Has;
      c := if Has(modifiers, SHIFT) then t.shifted[code] else t.plain[code];
      var caps := Has(modifiers, CAPS);
      if caps && 97 <= c <= 122 { c := c - 32; }
      if caps && 65 <= c <= 90 { c := c + 32; }
    }

    /** kb_handler: the modifiers and the event offered to the ring are those of Decode. */
    method Handle(sc: byte)
      requires Valid()
      modifies kbuf, this`khead, this`accepted, this`modifiers, this`extended
      ensures Valid()
      ensures modifiers == Decode(t, sc, old(modifiers)).mods && extended == (sc == 0xE0)
      ensures Abstract() == FifoNext(t, old(Abstract()), Interrupt(sc))
    {
      hide Ascii, Stored, PcOk, Slot, NewMods;
      extended := sc == 0xE0;
      if extended { return; }
      var pressed, code := sc < 0x80, sc % 0x80;
      if IsModifier(code) {
        modifiers := NewMods(modifiers, code, pressed);
      } else if pressed {
        var c := Character(code);
        var ok := Push(Event(code, c, modifiers, true));
      }
    }

    /** The next action of keyboard_poll; garbage is what the caller's variable holds at the start. */
    method PollStep(garbage: Event) returns (r: Answer)
      requires Valid()
      modifies this`ktail, this`pc, this`polled, this`seen
      ensures Valid()
      ensures r.Got? ==> polled == old(polled) + [r.evt] && old(|polled| < |accepted|)
      ensures !r.Got? ==> polled == old(polled)
      ensures r.Empty? ==> old(pc).Loaded? && old(seen) == |polled|
      ensures Abstract() == FifoNext(t, old(Abstract()), Poll(garbage))
    {
      hide Slot;
      r := Nothing;
      match pc {
        case Idle =>
          pc, seen := Loaded(khead), |accepted|;
        case Loaded(h) =>
          WrapIff(seen, |polled|);
          if h == ktail {
            pc, r := Idle, Empty;
          } else {
            pc := Copying(0, garbage);
          }
        case Copying(k, evt) =>
          if k < 4 {
            assert kbuf[Slot(|polled|)] == accepted[|polled|];
            pc := Copying(k + 1, Blend(evt, kbuf[ktail], k + 1));
          } else {
            assert evt == accepted[|polled|];
            WrapIff(|polled|, |polled|);
            ktail := (ktail + 1) % SIZE;
            polled := polled + [evt];
            pc, r := Idle, Got(evt);
          }
      }
    }

    /**
     Any interleaving of scan-code interrupts and poller actions: the events returned by the
     polls followed by the buffered ones are the accepted events in order, none lost, doubled or
     overwritten; and which were accepted is what a queue of 127 accepts of the decoded ones.
     */
    method Run(actions: seq<Action>) returns (returned: seq<Event>)
      requires Valid()
      modifies this, kbuf
      ensures Valid()
      ensures polled == old(polled) + returned && old(accepted) <= accepted
      ensures old(polled) + returned + accepted[|polled|..] == accepted
      ensures Abstract() == FifoAll(t, old(Abstract()), actions)
    {
      hide Stored, PcOk, Decode, FifoNext;
      returned := [];
      assert actions[..|actions|] == actions;
      for i := 0 to |actions|
        invariant Valid() && polled == old(polled) + returned && old(accepted) <= accepted
        invariant Abstract() == FifoAll(t, old(Abstract()), actions[..i])
      {
        assert actions[..i + 1][..i] == actions[..i];
        PrefixGrows(t, Abstract(), actions[i]);
        match actions[i] {
          case Interrupt(sc) => Handle(sc);
          case Poll(garbage) =>
            var r := PollStep(garbage);
            if r.Got? { returned := returned + [r.evt]; }
        }
      }
    }
  }

  lemma PrefixGrows(t: Tables, f: Fifo, a: Action)
    requires t.Ok()
    ensures f.accepted <= FifoNext(t, f, a).accepted
  {
    hide Decode;
  }

  /** The scan codes of the interrupts among some actions. */
  function Codes(actions: seq<Action>): seq<byte>
  {
    if actions == [] then []
    else
      var before, last := Codes(actions[..|actions| - 1]), actions[|actions| - 1];
      if last.Interrupt? then before + [last.sc] else before
  }

  lemma CodesSnoc(actions: seq<Action>, i: nat)
    requires i < |actions|
    ensures var before, after := Codes(actions[..i]), Codes(actions[..i + 1]);
            if actions[i].Interrupt?
            then after != [] && after[|after| - 1] == actions[i].sc && after[..|after| - 1] == before
            else after == before
  {
    assert actions[..i + 1][..i] == actions[..i];
  }

  /** The slot of the next event is not the slot of a buffered one. */
  lemma SlotsApart(p: nat, a: nat)
    requires p <= a < p + 127
    ensures forall i :: p <= i < a ==> Slot(i) != Slot(a)
  {
    forall i | p <= i < a ensures Slot(i) != Slot(a) {
      WrapIff(a, i);
    }
  }
}
