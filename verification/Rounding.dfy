/** Rounding up to a multiple of a power of two with a mask, in general and to
    whole pages. Blobs are rounded to the negotiated alignment, buffers and
    entries of the mmap registry to pages, all in 64 bits that can wrap. */
module Rounding {
  import opened Bits

  const PAGE: nat := 0x1000

  /** The least multiple of the alignment that covers the size, unbounded. */
  function RoundedUp(size: nat, align: nat): nat
    requires align > 0
  {
    var x := size + (align - 1);
    x - x % align
  }

  lemma RoundUp(size: nat, align: nat)
    requires align > 0
    ensures RoundedUp(size, align) % align == 0 && size <= RoundedUp(size, align) < size + align
  {
    var x := size + (align - 1);
    assert x - x % align == (x / align) * align;
    DivModUnique(x - x % align, align, x / align, 0);
  }

  lemma MaskRounds(x: u64, align: nat)
    requires IsPow2(align) && align <= U64
    ensures And(x, U64 - align) == x - x % align
  {
    hide And;
    var k: nat :| align == Pow2(k);
    Pow2Values();
    if k > 64 { Pow2StrictMonotone(64, k); }
    AndClearLow(x, k, 64);
  }

  /** `(val + 0xFFF) & ~0xFFF` in 64 bits. */
  function PageAlign(val: u64): u64 {
    AndAtMost((val + (PAGE - 1)) % U64, U64 - PAGE);
    And((val + (PAGE - 1)) % U64, U64 - PAGE)
  }

  /** The mask is exact below 2^64 - 4095 and gives zero above. */
  lemma PageAlignExact(val: u64)
    ensures PageAlign(val) == if val <= U64 - PAGE then RoundedUp(val, PAGE) else 0
    ensures PageAlign(val) == 0 <==> val == 0 || val > U64 - PAGE
  {
    var x := (val + (PAGE - 1)) % U64;
    PageMask(x);
    RoundUp(val, PAGE);
    hide And;
    if val <= U64 - PAGE {
      SmallMod(val + (PAGE - 1), U64);
    } else {
      DivModUnique(val + (PAGE - 1), U64, 1, val + (PAGE - 1) - U64);
      SmallMod(x, PAGE);
      hide RoundedUp;
    }
  }

  lemma PageMask(x: u64)
    ensures And(x, U64 - PAGE) == x - x % PAGE
  {
    Pow2Values();
    assert PAGE == Pow2(12);
    MaskRounds(x, PAGE);
  }
}
