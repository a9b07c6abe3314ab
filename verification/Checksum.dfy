/** The Internet checksum: the loop of ipv4.rs against ones' complement addition of 16-bit words. */
module Checksum {

  import opened Bytes

  const ONES: nat := 0xFFFF

  /** Ones' complement addition of 16-bit words: the carry goes back in at the bottom. */
  function OnesAdd(a: nat, b: nat): (c: nat)
    requires a <= ONES && b <= ONES
    ensures c <= ONES
  {
    if a + b > ONES then a + b - ONES else a + b
  }

  /** The big-endian 16-bit words of some bytes; an odd last byte is followed by zero. */
  function Words(d: seq<byte>): (ws: seq<nat>)
    ensures |ws| == (|d| + 1) / 2
    ensures forall i :: 0 <= i < |ws| ==> ws[i] <= ONES
  {
    if d == [] then []
    else if |d| == 1 then [Be16(d[0], 0)]
    else [Be16(d[0], d[1])] + Words(d[2..])
  }

  function Be16(hi: byte, lo: byte): (v: nat)
    ensures v <= ONES
  {
    var h: int, l: int := hi, lo;
    h * 256 + l
  }

  function OnesSum(ws: seq<nat>): (s: nat)
    requires forall i :: 0 <= i < |ws| ==> ws[i] <= ONES
    ensures s <= ONES
  {
    if ws == [] then 0 else OnesAdd(ws[0], OnesSum(ws[1..]))
  }

  /** The checksum of RFC 1071: the complement of the ones' complement sum. */
  function Sum16(d: seq<byte>): (c: nat)
    ensures c <= ONES
  {
    ONES - OnesSum(Words(d))
  }

  // ----- ones' complement sums as ordinary sums -----

  function Total(ws: seq<nat>): nat
  {
    if ws == [] then 0 else ws[0] + Total(ws[1..])
  }

  /** The 16-bit word that an ordinary sum folds to: 0 for 0, else its residue from 1 to 0xFFFF. */
  function Folded(s: nat): (r: nat)
    ensures r <= ONES && (r == 0 <==> s == 0)
  {
    if s == 0 then 0 else (s - 1) % ONES + 1
  }

  lemma FoldedAdd(a: nat, s: nat)
    requires a <= ONES
    ensures OnesAdd(a, Folded(s)) == Folded(a + s)
  {
  }

  lemma {:induction false} OnesSumFolds(ws: seq<nat>)
    requires forall i :: 0 <= i < |ws| ==> ws[i] <= ONES
    ensures OnesSum(ws) == Folded(Total(ws))
  {
    if ws != [] {
      OnesSumFolds(ws[1..]);
      FoldedAdd(ws[0], Total(ws[1..]));
    }
  }

  /** One round of the folding loop keeps the folded value. */
  lemma FoldRound(s: nat)
    ensures Folded(s % 0x1_0000 + s / 0x1_0000) == Folded(s)
    ensures s >= 0x1_0000 ==> s % 0x1_0000 + s / 0x1_0000 < s
  {
    var q, r := s / 0x1_0000, s % 0x1_0000;
    assert s == q * ONES + (q + r);
    if s > 0 { ResidueShift(q + r - 1, q); }
  }

  lemma ResidueShift(x: nat, q: nat)
    ensures (x + q * ONES) % ONES == x % ONES
  {
  }

  lemma {:induction false} TotalBound(ws: seq<nat>)
    requires forall i :: 0 <= i < |ws| ==> ws[i] <= ONES
    ensures Total(ws) <= |ws| * ONES
  {
    if ws != [] { TotalBound(ws[1..]); }
  }

  lemma {:induction false} TotalConcat(a: seq<nat>, b: seq<nat>)
    ensures Total(a + b) == Total(a) + Total(b)
  {
    if a == [] {
      assert a + b == b;
    } else {
      assert (a + b)[1..] == a[1..] + b;
      TotalConcat(a[1..], b);
    }
  }

  /** The words of an even number of bytes and of what follows them. */
  lemma {:induction false} WordsConcat(a: seq<byte>, b: seq<byte>)
    requires |a| % 2 == 0
    ensures Words(a + b) == Words(a) + Words(b)
    decreases |a|
  {
    if a == [] {
      assert a + b == b;
    } else {
      assert (a + b)[2..] == a[2..] + b;
      WordsConcat(a[2..], b);
    }
  }

  /** Two bytes, or an odd last byte, at the front. */
  lemma TotalStep(d: seq<byte>, i: nat)
    requires i < |d|
    ensures i + 1 < |d| ==> Total(Words(d[i..])) == Be16(d[i], d[i + 1]) + Total(Words(d[i + 2..]))
    ensures i + 1 == |d| ==> Total(Words(d[i..])) == Be16(d[i], 0)
  {
    var e := d[i..];
    if i + 1 < |d| {
      assert e[2..] == d[i + 2..];
      assert Words(e)[1..] == Words(e[2..]);
    } else {
      assert Words(e)[1..] == [];
    }
  }

  /** The adding loop, with its 32-bit sum. */
  method AddWords(d: seq<byte>) returns (sum: nat)
    ensures sum < WORD32
    ensures |d| <= 131074 ==> sum == Total(Words(d))
  {
    hide Words, Total;
    sum := 0;
    var i := 0;
    assert d[0..] == d;
    ghost var small := |d| <= 131074;
    TotalBound(Words(d));
    while i + 1 < |d|
      invariant i <= |d| && sum < WORD32
      invariant small ==> sum + Total(Words(d[i..])) == Total(Words(d))
      decreases |d| - i
    {
      TotalStep(d, i);
      sum := (sum + Be16(d[i], d[i + 1])) % WORD32;
      i := i + 2;
    }
    if i < |d| {
      TotalStep(d, i);
      var top: int := d[i];
      sum := (sum + top * 256) % WORD32;
    } else {
      assert d[i..] == [];
      assert Total(Words(d[i..])) == 0 by { NoWords(); }
    }
  }

  lemma NoWords()
    ensures Total(Words([])) == 0
  {
  }

  /**
   checksum of ipv4.rs. Up to 65537 words the sum cannot overflow and the result is the
   checksum of RFC 1071, whatever the number of bytes.
   */
  method Compute(d: seq<byte>) returns (c: nat)
    ensures c <= ONES
    ensures |d| <= 131074 ==> c == Sum16(d)
  {
    hide Words, Total, Folded, OnesSum;
    var sum := AddWords(d);
    ghost var total := sum;
    while sum / 0x1_0000 != 0
      invariant Folded(sum) == Folded(total)
      decreases sum
    {
      FoldRound(sum);
      sum := sum % 0x1_0000 + sum / 0x1_0000;
    }
    FoldedSmall(sum);
    OnesSumFolds(Words(d));
    c := ONES - sum;
  }

  lemma FoldedSmall(s: nat)
    requires s <= ONES
    ensures Folded(s) == s
  {
  }

  /** One word more can overflow: 65538 words of 0xFFFF add up to more than 32 bits hold. */
  lemma OverflowBeyond(ws: seq<nat>)
    requires |ws| == 65538 && forall i :: 0 <= i < |ws| ==> ws[i] == ONES
    ensures Total(ws) >= WORD32
  {
    TotalAll(ws);
  }

  lemma {:induction false} TotalAll(ws: seq<nat>)
    requires forall i :: 0 <= i < |ws| ==> ws[i] == ONES
    ensures Total(ws) == |ws| * ONES
  {
    if ws != [] { TotalAll(ws[1..]); }
  }

  /** Storing the checksum in an even-aligned zero word makes the whole check to zero. */
  lemma ChecksToZero(a: seq<byte>, b: seq<byte>)
    requires |a| % 2 == 0
    ensures var c := Sum16(a + [0, 0] + b);
            Sum16(a + [c / 256, c % 256] + b) == 0
  {
    hide Words, Total, OnesSum, Folded;
    var c := Sum16(a + [0, 0] + b);
    var z, w: seq<byte> := [0, 0], [c / 256, c % 256];
    var s := Total(Words(a)) + Total(Words(b));
    SplitTotal(a, z, b);
    SplitTotal(a, w, b);
    OneWord(z);
    OneWord(w);
    OnesSumFolds(Words(a + z + b));
    OnesSumFolds(Words(a + w + b));
    assert Total(Words(a + z + b)) == s;
    Complement(s);
  }

  lemma SplitTotal(a: seq<byte>, w: seq<byte>, b: seq<byte>)
    requires |a| % 2 == 0 && |w| == 2
    ensures Total(Words(a + w + b)) == Total(Words(a)) + Total(Words(w)) + Total(Words(b))
  {
    WordsConcat(a + w, b);
    WordsConcat(a, w);
    TotalConcat(Words(a + w), Words(b));
    TotalConcat(Words(a), Words(w));
  }

  lemma OneWord(w: seq<byte>)
    requires |w| == 2
    ensures Total(Words(w)) == Be16(w[0], w[1])
  {
    assert w[2..] == [];
    assert Words(w) == [Be16(w[0], w[1])];
    assert Words(w)[1..] == [];
  }

  lemma Complement(s: nat)
    ensures Folded(s + (ONES - Folded(s))) == ONES
  {
  }
}
