/** What the two builds of the kernel differ in. */
module Machine {

  import opened Bytes

  /** x86 with 4-byte pointers and x86_64 with 8-byte pointers. */
  datatype Arch = X86 | X64 {
    function PtrSize(): nat { if X86? then 4 else 8 }
    /** One more than the largest size_t. */
    function WordMod(): nat { if X86? then WORD32 else WORD64 }
    /** size_t arithmetic: the remainder modulo the word size. */
    function Wrap(x: int): (r: nat)
      ensures r < WordMod() && (0 <= x < WordMod() ==> r == x)
    {
      if X86? then x % WORD32 else x % WORD64
    }
  }
}
