/** Octets, size_t arithmetic and the 4-byte alignment rule every Convert message obeys. */
module Bytes {

  type byte = x: int | 0 <= x < 256

  const PADDING := 4

  /** Size sums and differences are taken in size_t, which wraps at 2^64. */
  const SIZE_MODULUS := 0x1_0000_0000_0000_0000

  function SizeSub(a: nat, b: nat): nat {
    (a - b) % SIZE_MODULUS
  }

  /** malloc refuses any request above PTRDIFF_MAX; running out of memory is not modelled. */
  predicate MallocSucceeds(size: nat) {
    size < SIZE_MODULUS / 2
  }

  function Zeros(n: nat): (z: seq<byte>)
    ensures |z| == n
    ensures forall i :: 0 <= i < n ==> z[i] == 0
  {
    seq(n, _ => 0)
  }

  /** The size n rounded up to whole words. */
  function Align(n: nat): nat {
    (n + PADDING - 1) / PADDING * PADDING
  }

  function Pad(s: seq<byte>): (p: seq<byte>)
    ensures |p| == Align(|s|)
    ensures s <= p
    ensures forall i :: |s| <= i < |p| ==> p[i] == 0
  {
    s + Zeros(Align(|s|) - |s|)
  }

  /** The aligned size is the least multiple of 4 that is not below n; aligning twice changes nothing. */
  lemma AlignIsLeastMultiple(n: nat, m: nat)
    requires n <= m && m % PADDING == 0
    ensures n <= Align(n) <= m && Align(n) < n + PADDING
    ensures Align(n) % PADDING == 0 && Align(Align(n)) == Align(n)
  {
    AlignIsAligned(n);
    AlignIsAligned(Align(n));
    hide Align;
  }

  /** The aligned size is n or the next multiple of 4 above it. */
  lemma AlignIsAligned(n: nat)
    ensures Align(n) % PADDING == 0 && n <= Align(n) < n + PADDING
  {
  }

  // ----- The alignment macro as it is written: add, then mask.

  /** Bitwise AND of two unsigned integers. */
  function BitAnd(a: nat, b: nat): nat {
    if a == 0 || b == 0 then 0 else (a % 2) * (b % 2) + 2 * BitAnd(a / 2, b / 2)
  }

  function Pow2(k: nat): (p: nat)
    ensures p > 0
  {
    if k == 0 then 1 else 2 * Pow2(k - 1)
  }

  /** (x + (a - 1)) & ~(a - 1) for a = 4 in 64-bit arithmetic. */
  function AlignMask(n: nat): nat {
    BitAnd((n + 3) % SIZE_MODULUS, SIZE_MODULUS - 1 - 3)
  }

  lemma {:induction false} AndOnes(x: nat, k: nat)
    requires x < Pow2(k)
    ensures BitAnd(x, Pow2(k) - 1) == x
  {
    if k > 0 {
      AndOnes(x / 2, k - 1);
      assert (Pow2(k) - 1) % 2 == 1 && (Pow2(k) - 1) / 2 == Pow2(k - 1) - 1;
    }
  }

  lemma {:induction false} Pow2Sum(j: nat, k: nat, pj: nat, pk: nat)
    requires Pow2(j) == pj && Pow2(k) == pk
    ensures Pow2(j + k) == pj * pk
  {
    if j > 0 {
      Pow2Sum(j - 1, k, pj / 2, pk);
      assert 2 * (pj / 2 * pk) == pj * pk;
    }
  }

  lemma Pow2Of62()
    ensures Pow2(62) == SIZE_MODULUS / 4
  {
    Pow2Sum(1, 1, 2, 2);
    Pow2Sum(2, 2, 4, 4);
    Pow2Sum(4, 4, 16, 16);
    Pow2Sum(8, 8, 256, 256);
    Pow2Sum(16, 8, 65536, 256);
    Pow2Sum(24, 4, 0x100_0000, 16);
    Pow2Sum(28, 2, 0x1000_0000, 4);
    Pow2Sum(30, 1, 0x4000_0000, 2);
    Pow2Sum(31, 31, 0x8000_0000, 0x8000_0000);
  }

  /** Clearing the two low bits of a 64-bit number rounds it down to a multiple of 4. */
  lemma AndHighBits(x: nat)
    requires x < SIZE_MODULUS
    ensures BitAnd(x, SIZE_MODULUS - 4) == x / 4 * 4
  {
    hide BitAnd, Pow2;
    Pow2Of62();
    AndOnes(x / 4, 62);
    assert x / 2 / 2 == x / 4;
    HalfStep(x / 2, SIZE_MODULUS / 2 - 2);
    HalfStep(x, SIZE_MODULUS - 4);
  }

  lemma HalfStep(a: nat, b: nat)
    requires b > 0 && b % 2 == 0
    ensures BitAnd(a, b) == 2 * BitAnd(a / 2, b / 2)
  {
  }

  /** The mask computes Align on every size whose padding does not overflow, and 0 on the three that do. */
  lemma AlignMaskExact(n: nat)
    requires n < SIZE_MODULUS
    ensures AlignMask(n) == if n <= SIZE_MODULUS - 4 then Align(n) else 0
  {
    hide BitAnd;
    AndHighBits((n + 3) % SIZE_MODULUS);
  }
}
