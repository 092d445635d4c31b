/**
  The one-word membership filter of the write log: machine words, cell
  addresses, and the single-bit `bloom_hash` of an address.

  A filter word is modelled by the set of positions of its one bits: `0` is
  the empty set, `a | b` is `a + b`, and `a & b == 0` is `a * b == {}`.
 */
module Bloom {

  /** One more than the largest `usize` on a 64-bit target: 2^64. */
  const USIZE_LIMIT: nat := 0x1_0000_0000_0000_0000

  /** `usize` on a 64-bit target. */
  type Usize = x: nat | x < USIZE_LIMIT

  /** A transactional cell is identified by its address. */
  type Addr = Usize

  /** A bit position of a machine word. */
  type BitIndex = i: nat | i < 64

  /** A machine word, as the set of positions of its one bits. */
  type Bits = set<BitIndex>

  /** The number of bits of a machine word, the modulus of the hash. */
  const WORD_BITS: nat := 64

  function Pow2(n: nat): (p: nat)
    ensures p > 0
  {
    if n == 0 then 1 else 2 * Pow2(n - 1)
  }

  /**
    `calc_shift`: one plus the number of the thresholds 1, 2, 4 and 8 that a
    cell's alignment exceeds, so `log2(align) + 1` for alignments up to 16.
   */
  function CalcShift(align: nat): (s: nat)
    ensures 1 <= s <= 5
  {
    (if align > 1 then 1 else 0) + (if align > 2 then 1 else 0) +
    (if align > 4 then 1 else 0) + (if align > 8 then 1 else 0) + 1
  }

  /** For a power-of-two alignment up to 16, `calc_shift` is its base-2 logarithm plus one. */
  lemma CalcShiftIsLog2PlusOne(k: nat)
    requires k <= 4
    ensures CalcShift(Pow2(k)) == k + 1
  {
  }

  /** The alignment of a cell (`align_of::<TCellErased>()`) on a 64-bit target. */
  const CELL_ALIGN: nat := 8

  /** How far an address is shifted right before it is hashed: `calc_shift()`, 4 for 8-byte alignment. */
  const SHIFT: nat := CalcShift(CELL_ALIGN)

  /** Cells are hashed in 16-byte granules. */
  lemma GranuleIs16()
    ensures SHIFT == 4 && Pow2(SHIFT) == 16
  {
  }

  /** The bit an address hashes to: `(addr >> SHIFT) mod 64`, with the unsigned shift as a division. */
  function HashIndex(addr: Addr): (i: BitIndex)
  {
    (addr / Pow2(SHIFT)) % WORD_BITS
  }

  /**
    `bloom_hash`: a word with exactly one bit set, the bit at `HashIndex(addr)`.
    It is never zero, so it can be handed out as a `NonZeroUsize`.
   */
  function BloomHash(addr: Addr): (h: Bits)
    ensures h != {}
    ensures forall j: BitIndex :: j in h <==> j == HashIndex(addr)
  {
    {HashIndex(addr)}
  }

  /** The number a word stands for, counting only its bits below position `n`. */
  function ValueBelow(b: Bits, n: nat): (v: nat)
    requires n <= WORD_BITS
    ensures v < Pow2(n)
    ensures v == 0 <==> forall i: BitIndex | i < n :: i !in b
  {
    if n == 0 then 0
    else ValueBelow(b, n - 1) + (if n - 1 in b then Pow2(n - 1) else 0)
  }

  /**
    The `usize` a word stands for, the sum of `2^i` over its one bits. It is
    zero exactly when no bit is set, which is what the filter's `== 0` tests ask.
   */
  function Value(b: Bits): (v: nat)
    ensures v < Pow2(WORD_BITS)
    ensures v == 0 <==> b == {}
  {
    ValueBelow(b, WORD_BITS)
  }

  /** Below position `n`, a single-bit word is worth `2^i` if its bit is there, else nothing. */
  lemma {:induction false} ValueBelowSingle(i: BitIndex, n: nat)
    requires n <= WORD_BITS
    ensures ValueBelow({i}, n) == if i < n then Pow2(i) else 0
  {
    if n > 0 {
      ValueBelowSingle(i, n - 1);
    }
  }

  /** The hash as a number is `1 << ((addr >> SHIFT) & 63)`. */
  lemma BloomHashValue(addr: Addr)
    ensures Value(BloomHash(addr)) == Pow2(HashIndex(addr))
  {
    ValueBelowSingle(HashIndex(addr), WORD_BITS);
  }

  /** A hash has exactly one bit. */
  lemma HashIsSingleBit(addr: Addr)
    ensures |BloomHash(addr)| == 1
  {
  }

  /** Two addresses collide in the filter exactly when they hash to the same bit. */
  lemma HashesOverlap(a: Addr, b: Addr)
    ensures BloomHash(a) * BloomHash(b) != {} <==> HashIndex(a) == HashIndex(b)
  {
  }

  /**
    Addresses one hash period apart (`64 << SHIFT` = 1024 bytes) always
    collide: the filter cannot tell them apart.
   */
  lemma HashPeriodic(a: Addr)
    requires a + WORD_BITS * Pow2(SHIFT) < USIZE_LIMIT
    ensures HashIndex(a + WORD_BITS * Pow2(SHIFT)) == HashIndex(a)
    ensures BloomHash(a + WORD_BITS * Pow2(SHIFT)) == BloomHash(a)
  {
    var g := Pow2(SHIFT);
    GranuleIs16();
    var q := a / g;
    var b := a + WORD_BITS * g;
    assert b == (q + WORD_BITS) * g + a % g;
    assert b / g == q + WORD_BITS;
  }

  /**
    Addresses in the same `1 << SHIFT`-byte granule share a bit, and the next
    granule hashes to the next bit, wrapping around at 64.
   */
  lemma HashGranules(a: Addr, b: Addr)
    requires a / Pow2(SHIFT) == b / Pow2(SHIFT)
    ensures HashIndex(a) == HashIndex(b)
    ensures a + Pow2(SHIFT) < USIZE_LIMIT ==>
      HashIndex(a + Pow2(SHIFT)) == (HashIndex(a) + 1) % WORD_BITS
  {
    var g := Pow2(SHIFT);
    GranuleIs16();
    var q := a / g;
    assert a + g == (q + 1) * g + a % g;
    assert (a + g) / g == q + 1;
  }
}
