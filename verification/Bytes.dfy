/** Bytes and the little-endian reading of a run of bytes as a number. */
module Bytes {

  type byte = x: int | 0 <= x < 256

  const WORD16 := 0x1_0000
  const WORD32 := 0x1_0000_0000
  const WORD64 := 0x1_0000_0000_0000_0000

  /** 256 to the power k. */
  function Pow256(k: nat): nat
  {
    if k == 0 then 1 else 256 * Pow256(k - 1)
  }

  /** The number whose base-256 digits, least significant first, are s. */
  function Le(s: seq<byte>): nat
  {
    if s == [] then 0 else s[0] + 256 * Le(s[1..])
  }

  /** The k least significant base-256 digits of n, least significant first. */
  function ToLe(n: nat, k: nat): (s: seq<byte>)
    ensures |s| == k
    decreases k
  {
    if k == 0 then [] else [n % 256] + ToLe(n / 256, k - 1)
  }

  /** Storing a number that fits in k bytes and loading it again gives it back. */
  lemma {:induction false} LeToLe(n: nat, k: nat)
    requires n < Pow256(k)
    ensures Le(ToLe(n, k)) == n
    decreases k
  {
    if k > 0 {
      LeToLe(n / 256, k - 1);
      assert ToLe(n, k)[1..] == ToLe(n / 256, k - 1);
    }
  }

  lemma PowersOf256()
    ensures Pow256(1) == 256 && Pow256(2) == WORD16
    ensures Pow256(4) == WORD32 && Pow256(8) == WORD64
  {
    assert Pow256(3) == 256 * Pow256(2);
    assert Pow256(5) == 256 * Pow256(4);
    assert Pow256(6) == 256 * Pow256(5);
    assert Pow256(7) == 256 * Pow256(6);
  }

  /** Copy src into buf at position at: memcpy, or copy_from_slice. */
  method Blit(buf: array<byte>, at: nat, src: seq<byte>)
    requires at + |src| <= buf.Length
    modifies buf
    ensures buf[..] == old(buf[..at]) + src + old(buf[at + |src|..])
  {
    for i := 0 to |src|
      invariant buf[..] == old(buf[..at]) + src[..i] + old(buf[at + i..])
    {
      buf[at + i] := src[i];
      assert src[..i + 1] == src[..i] + [src[i]];
    }
    assert src[..|src|] == src;
  }

  /** Write s behind the first at bytes; nothing from limit on is touched. */
  method Append(buf: array<byte>, at: nat, s: seq<byte>, ghost limit: nat)
    requires at + |s| <= limit <= buf.Length
    modifies buf
    ensures buf[..at + |s|] == old(buf[..at]) + s
    ensures buf[limit..] == old(buf[limit..])
  {
    ghost var was := buf[..];
    Blit(buf, at, s);
    assert buf[..] == was[..at] + s + was[at + |s|..];
    assert buf[..at + |s|] == buf[..][..at + |s|] == was[..at] + s;
    assert buf[limit..] == buf[..][limit..] == was[limit..];
  }
}
