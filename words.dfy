/**
  Machine integers used by the region allocator: `size_t` (64 bits,
  unsigned, wrapping), `uint32_t` and `int32_t`.  Every `+=` and every
  subtraction of two `size_t` counters in the allocator wraps modulo 2^64;
  the functions below make that wrap-around explicit.
 */
module Words {

  const SizeModulus: int := 0x1_0000_0000_0000_0000
  const UInt32Modulus: int := 0x1_0000_0000

  type SizeT = x: int | 0 <= x < SizeModulus
  type UInt32 = x: int | 0 <= x < UInt32Modulus
  type Int32 = x: int | -0x8000_0000 <= x < 0x8000_0000

  /** `a + b` on `size_t`: the sum reduced modulo 2^64. */
  function AddSize(a: SizeT, b: SizeT): (r: SizeT)
    ensures r == (a + b) % SizeModulus
  {
    if a + b < SizeModulus then a + b else a + b - SizeModulus
  }

  /** `a - b` on `size_t`: the difference reduced modulo 2^64, so that `b + r` wraps to `a`. */
  function SubSize(a: SizeT, b: SizeT): (r: SizeT)
    ensures r == (a - b) % SizeModulus && AddSize(b, r) == a
  {
    if b <= a then a - b else a - b + SizeModulus
  }

  /** Conversion of a `uint32_t` to `int32_t` (two's complement). */
  function Int32Of(u: UInt32): (r: Int32)
    ensures r % UInt32Modulus == u
    ensures u < 0x8000_0000 ==> r == u
  {
    if u < 0x8000_0000 then u else u - UInt32Modulus
  }

  /** Wrapping sum of a sequence of `size_t` values, left to right. */
  function SumSize(s: seq<SizeT>): SizeT
  {
    if s == [] then 0 else AddSize(s[0], SumSize(s[1..]))
  }

  lemma AddSizeAssociative(a: SizeT, b: SizeT, c: SizeT)
    ensures AddSize(AddSize(a, b), c) == AddSize(a, AddSize(b, c))
  {
  }

  /** Reading a counter again after it grew by `c` gives back `c`, wrap or no wrap. */
  lemma SubAfterAdd(a: SizeT, c: SizeT)
    ensures SubSize(AddSize(a, c), a) == c
  {
  }

  /** A counter that shrank by `s` and then by `c` has shrunk by `s + c`. */
  lemma SubSub(p: SizeT, s: SizeT, c: SizeT)
    ensures SubSize(SubSize(p, s), c) == SubSize(p, AddSize(s, c))
  {
  }

  /** What a counter lost, read back as a difference from its old value. */
  lemma SubOfSub(p: SizeT, c: SizeT)
    ensures SubSize(p, SubSize(p, c)) == c
  {
  }

  lemma SubSizeZero(p: SizeT)
    ensures SubSize(p, 0) == p && SubSize(p, p) == 0
  {
  }

  /** Appending a value to a summed sequence adds it to the sum. */
  lemma {:induction false} SumSizeAppend(s: seq<SizeT>, x: SizeT)
    ensures SumSize(s + [x]) == AddSize(SumSize(s), x)
  {
    if s == [] {
      assert [] + [x] == [x];
      assert [x][1..] == [];
    } else {
      assert (s + [x])[0] == s[0];
      assert (s + [x])[1..] == s[1..] + [x];
      SumSizeAppend(s[1..], x);
      AddSizeAssociative(s[0], SumSize(s[1..]), x);
    }
  }

  /** The sum of `s[k..]` is `s[k]` added to the sum of `s[k+1..]`. */
  lemma SumSizeFrom(s: seq<SizeT>, k: nat)
    requires k < |s|
    ensures SumSize(s[k..]) == AddSize(s[k], SumSize(s[k + 1..]))
  {
    assert s[k..][0] == s[k];
    assert s[k..][1..] == s[k + 1..];
  }

  /** Without wrap-around, the sum is the ordinary sum. */
  function NatSum(s: seq<SizeT>): nat
  {
    if s == [] then 0 else s[0] + NatSum(s[1..])
  }

  lemma {:induction false} SumSizeIsNatSumModulo(s: seq<SizeT>)
    ensures SumSize(s) == NatSum(s) % SizeModulus
  {
    if s != [] {
      SumSizeIsNatSumModulo(s[1..]);
    }
  }
}
