/**
  Call-stack fingerprints.  An `AllocEntry` is a fixed array of
  `MAX_BACKTRACE_SIZE` return addresses identifying the call site of an
  allocation; a region log keeps the `REGION_BACKTRACE_DEPTH` addresses of
  the site that created the region.  The addresses themselves come from a
  backtrace facility outside the model and are taken as given values.
 */
module Traces {

  const MaxBacktraceSize: nat := 10
  const RegionBacktraceDepth: nat := 3

  import opened Words

  /** A `void *` return address, as the unsigned 64-bit value of the pointer. */
  type Address = SizeT

  type Backtrace = s: seq<Address> | |s| == MaxBacktraceSize
    witness [0, 0, 0, 0, 0, 0, 0, 0, 0, 0]

  type RegionBacktrace = s: seq<Address> | |s| == RegionBacktraceDepth
    witness [0, 0, 0]

  datatype AllocEntry = AllocEntry(trace: Backtrace)

  /**
    `AllocEntry::operator==`: a `memcmp` of the whole slot array, which
    is equality of the fingerprints as values.
   */
  function EntriesEqual(a: AllocEntry, b: AllocEntry): (r: bool)
    ensures r <==> a == b
  {
    var same := forall i :: 0 <= i < MaxBacktraceSize ==> a.trace[i] == b.trace[i];
    assert same ==> a.trace == b.trace;
    same
  }

  /** `RegionLog::operator==` compares nothing but the creation traces. */
  function RegionTracesEqual(a: RegionBacktrace, b: RegionBacktrace): (r: bool)
    ensures r <==> a == b
  {
    var same := forall i :: 0 <= i < RegionBacktraceDepth ==> a[i] == b[i];
    assert same ==> a == b;
    same
  }

  const WordBits: nat := 64

  /**
    A 64-bit `size_t` hash value as its bits, least significant first.
    XOR acts on each bit on its own, which this view makes explicit.
   */
  type Word = s: seq<bool> | |s| == WordBits
    witness seq(WordBits, i => false)

  function Zero(): (r: Word)
    ensures forall i :: 0 <= i < WordBits ==> !r[i]
  {
    seq(WordBits, i => false)
  }

  /** `a ^ b`: each bit of the result is set iff exactly one operand has it set. */
  function Xor(a: Word, b: Word): (r: Word)
    ensures forall i :: 0 <= i < WordBits ==> r[i] == (a[i] != b[i])
  {
    seq(WordBits, i requires 0 <= i < WordBits => a[i] != b[i])
  }

  function Pow2(n: nat): (r: nat)
    ensures r > 0
  {
    if n == 0 then 1 else 2 * Pow2(n - 1)
  }

  /** The binary digits of a `size_t`, least significant first. */
  function BitsOf(n: SizeT): (r: Word)
    ensures forall i :: 0 <= i < WordBits ==> r[i] == ((n / Pow2(i)) % 2 == 1)
  {
    seq(WordBits, i requires 0 <= i < WordBits => (n / Pow2(i)) % 2 == 1)
  }

  /**
    `std::hash<void *>`: the standard leaves its value to the
    implementation; libstdc++ and libc++ both return the pointer's own bits.
   */
  function SlotHash(a: Address): Word
  {
    BitsOf(a)
  }

  /** XOR of the per-slot hashes of `s`, starting from 0. */
  function XorFold(s: seq<Address>): Word
  {
    if s == [] then Zero() else Xor(SlotHash(s[0]), XorFold(s[1..]))
  }

  lemma XorAssociative(a: Word, b: Word, c: Word)
    ensures Xor(Xor(a, b), c) == Xor(a, Xor(b, c))
  {
  }

  lemma XorSwap(a: Word, b: Word, c: Word)
    ensures Xor(a, Xor(b, c)) == Xor(b, Xor(a, c))
  {
  }

  lemma XorZero(a: Word)
    ensures Xor(a, Zero()) == a && Xor(Zero(), a) == a
  {
  }

  /** XORing in one more slot extends the fold by that slot. */
  lemma {:induction false} XorFoldAppend(s: seq<Address>, x: Address)
    ensures XorFold(s + [x]) == Xor(XorFold(s), SlotHash(x))
  {
    if s == [] {
      assert [] + [x] == [x];
      assert [x][1..] == [];
      XorZero(SlotHash(x));
    } else {
      assert (s + [x])[1..] == s[1..] + [x];
      XorFoldAppend(s[1..], x);
      XorAssociative(SlotHash(s[0]), XorFold(s[1..]), SlotHash(x));
    }
  }

  /**
    The hash of an `AllocEntry`: start from 0 and XOR in the hash of each
    of the ten slots.
   */
  method Hash(k: AllocEntry) returns (result: Word)
    ensures result == XorFold(k.trace)
  {
    result := Zero();
    var i := 0;
    while i < MaxBacktraceSize
      invariant 0 <= i <= MaxBacktraceSize
      invariant result == XorFold(k.trace[..i])
    {
      assert k.trace[..i + 1] == k.trace[..i] + [k.trace[i]];
      XorFoldAppend(k.trace[..i], k.trace[i]);
      result := Xor(result, SlotHash(k.trace[i]));
      i := i + 1;
    }
    assert k.trace[..MaxBacktraceSize] == k.trace;
  }

  /** Taking one slot out: its hash XORed with the fold of the others. */
  lemma {:induction false} XorFoldRemove(s: seq<Address>, k: nat)
    requires k < |s|
    ensures XorFold(s) == Xor(SlotHash(s[k]), XorFold(s[..k] + s[k + 1..]))
  {
    if k > 0 {
      var rest := s[..k] + s[k + 1..];
      var tailRest := s[1..][..k - 1] + s[1..][k..];
      assert rest == [s[0]] + tailRest;
      assert rest[1..] == tailRest;
      XorFoldRemove(s[1..], k - 1);
      XorSwap(SlotHash(s[0]), SlotHash(s[k]), XorFold(tailRest));
    } else {
      assert s[..k] + s[k + 1..] == s[1..];
    }
  }

  lemma MultisetTail<T>(s: seq<T>)
    requires s != []
    ensures multiset(s[1..]) == multiset(s) - multiset{s[0]}
  {
    assert s == [s[0]] + s[1..];
    assert multiset(s) == multiset{s[0]} + multiset(s[1..]);
  }

  lemma MultisetRemove<T>(t: seq<T>, k: nat)
    requires k < |t|
    ensures multiset(t[..k] + t[k + 1..]) == multiset(t) - multiset{t[k]}
  {
    assert t == t[..k] + [t[k]] + t[k + 1..];
    assert multiset(t) == multiset(t[..k] + t[k + 1..]) + multiset{t[k]};
  }

  lemma IndexOf<T>(t: seq<T>, x: T) returns (k: nat)
    requires x in multiset(t)
    ensures k < |t| && t[k] == x
  {
    assert x in t;
    k :| 0 <= k < |t| && t[k] == x;
  }

  /** In a permutation of `s`, some position holds `s[0]`, and the rest match. */
  lemma MatchFirst<T>(s: seq<T>, t: seq<T>) returns (k: nat)
    requires s != [] && multiset(s) == multiset(t)
    ensures k < |t| && t[k] == s[0]
    ensures multiset(s[1..]) == multiset(t[..k] + t[k + 1..])
  {
    assert s[0] in multiset(s);
    k := IndexOf(t, s[0]);
    MultisetRemove(t, k);
    MultisetTail(s);
  }

  /** XOR is commutative, so the hash ignores the order of the slots. */
  lemma {:induction false} XorFoldPermutation(s: seq<Address>, t: seq<Address>)
    requires multiset(s) == multiset(t)
    ensures XorFold(s) == XorFold(t)
    decreases |s|
  {
    if s == [] {
      assert |t| == |multiset(t)| == 0;
    } else {
      var k := MatchFirst(s, t);
      XorFoldPermutation(s[1..], t[..k] + t[k + 1..]);
      XorFoldRemove(t, k);
    }
  }
}
