/** The bit-reversal permutation that puts an FFT input into the order the
    radix-2 decimation-in-time butterflies expect (bit_shuffle in lab-5). */
module BitReversal {
  import opened Arith

  /** Width of std::size_t, and the modulus of its unsigned arithmetic. */
  const WordBits: nat := 64
  const WordModulus: nat := 0x1_0000_0000_0000_0000

  lemma {:induction false} WordModulusIsPow()
    ensures Pow(2, WordBits) == WordModulus
  {
    assert Pow(2, 8) == 256;
    PowAdd(2, 8, 8);
    PowAdd(2, 16, 16);
    PowAdd(2, 32, 32);
  }

  /** n is 1, 2, 4, 8, ... */
  predicate IsPow2(n: nat)
    decreases n
  {
    n == 1 || (n >= 2 && n % 2 == 0 && IsPow2(n / 2))
  }

  /** Number of binary digits of n; 0 for n == 0. */
  function BitLength(n: nat): nat
  {
    if n == 0 then 0 else 1 + BitLength(n / 2)
  }

  /** The floor of the binary logarithm. */
  function Log2(n: nat): nat
    requires n >= 1
  {
    BitLength(n) - 1
  }

  lemma {:induction false} Log2Bounds(n: nat)
    requires n >= 1
    ensures Pow(2, Log2(n)) <= n < 2 * Pow(2, Log2(n))
  {
    if n >= 2 {
      Log2Bounds(n / 2);
    }
  }

  lemma {:induction false} Log2OfPow2(n: nat)
    requires IsPow2(n)
    ensures Pow(2, Log2(n)) == n
  {
    if n >= 2 {
      Log2OfPow2(n / 2);
    }
  }

  lemma {:induction false} BitLengthAtMost(n: nat, k: nat)
    requires n < Pow(2, k)
    ensures BitLength(n) <= k
  {
    if n > 0 {
      BitLengthAtMost(n / 2, k - 1);
    }
  }

  /** std::countl_zero on a 64-bit word: the zero bits above the highest set bit. */
  function CountlZero(n: nat): (z: nat)
    requires n < WordModulus
    ensures z <= WordBits
    ensures n == 0 ==> z == WordBits
    ensures n >= 1 ==> z < WordBits && Pow(2, WordBits - 1 - z) <= n < Pow(2, WordBits - z)
  {
    WordModulusIsPow();
    BitLengthAtMost(n, WordBits);
    if n >= 1 then Log2Bounds(n); WordBits - BitLength(n) else WordBits
  }

  /** index_len: word width minus leading zeros minus one, in unsigned 64-bit
      arithmetic (so it wraps to 2^64 - 1 when n == 0). For n >= 1 it is the
      floor of log2 n. */
  function IndexLen(n: nat): (len: nat)
    requires n < WordModulus
    ensures n >= 1 ==> len == Log2(n) && Pow(2, len) <= n < 2 * Pow(2, len)
    ensures n == 0 ==> len == WordModulus - 1
  {
    var len := (WordBits - CountlZero(n) - 1) % WordModulus;
    if n >= 1 then Log2Bounds(n); len else len
  }

  /** The low len binary digits of i, least significant first. */
  function ToBits(i: nat, len: nat): (bs: seq<bool>)
    ensures |bs| == len
  {
    if len == 0 then [] else [i % 2 == 1] + ToBits(i / 2, len - 1)
  }

  /** The number whose binary digits, least significant first, are bs. */
  function FromBits(bs: seq<bool>): nat
  {
    if bs == [] then 0 else (if bs[0] then 1 else 0) + 2 * FromBits(bs[1..])
  }

  function Reverse<X>(s: seq<X>): (r: seq<X>)
    ensures |r| == |s|
  {
    if s == [] then [] else Reverse(s[1..]) + [s[0]]
  }

  /** i with its low len bits written in the opposite order. */
  function ReverseBits(i: nat, len: nat): (r: nat)
    ensures r < Pow(2, len)
  {
    FromBitsBound(Reverse(ToBits(i, len)));
    FromBits(Reverse(ToBits(i, len)))
  }

  lemma {:induction false} FromBitsBound(bs: seq<bool>)
    ensures FromBits(bs) < Pow(2, |bs|)
  {
    if bs != [] {
      FromBitsBound(bs[1..]);
    }
  }

  lemma {:induction false} FromBitsAppend(bs: seq<bool>, b: bool)
    ensures FromBits(bs + [b]) == FromBits(bs) + (if b then 1 else 0) * Pow(2, |bs|)
  {
    if bs != [] {
      assert (bs + [b])[1..] == bs[1..] + [b];
      FromBitsAppend(bs[1..], b);
    }
  }

  /** Reading back the low len bits of a number below 2^len gives the number. */
  lemma {:induction false} FromToBits(i: nat, len: nat)
    requires i < Pow(2, len)
    ensures FromBits(ToBits(i, len)) == i
  {
    if len > 0 {
      FromToBits(i / 2, len - 1);
      assert ToBits(i, len)[1..] == ToBits(i / 2, len - 1);
    }
  }

  /** Taking the low |bs| bits of the number bs denotes gives bs back. */
  lemma {:induction false} ToFromBits(bs: seq<bool>)
    ensures ToBits(FromBits(bs), |bs|) == bs
  {
    if bs != [] {
      var x := FromBits(bs);
      assert x % 2 == (if bs[0] then 1 else 0) && x / 2 == FromBits(bs[1..]);
      ToFromBits(bs[1..]);
    }
  }

  lemma {:induction false} ReverseAppend<X>(a: seq<X>, b: seq<X>)
    ensures Reverse(a + b) == Reverse(b) + Reverse(a)
  {
    if a == [] {
      assert a + b == b;
    } else {
      assert (a + b)[1..] == a[1..] + b;
      ReverseAppend(a[1..], b);
    }
  }

  lemma {:induction false} ReverseReverse<X>(s: seq<X>)
    ensures Reverse(Reverse(s)) == s
  {
    if s != [] {
      ReverseAppend(Reverse(s[1..]), [s[0]]);
      ReverseReverse(s[1..]);
      assert [s[0]] + s[1..] == s;
    }
  }

  /** One step of the shift-and-accumulate loop: the lowest bit of i becomes
      the highest of its reversal. */
  lemma {:induction false} ReverseBitsStep(i: nat, len: nat)
    requires len >= 1
    ensures ReverseBits(i, len) == (i % 2) * Pow(2, len - 1) + ReverseBits(i / 2, len - 1)
  {
    var rest := ToBits(i / 2, len - 1);
    assert ToBits(i, len) == [i % 2 == 1] + rest;
    assert Reverse(ToBits(i, len)) == Reverse(rest) + [i % 2 == 1];
    FromBitsAppend(Reverse(rest), i % 2 == 1);
  }

  /** Reversing the low len bits twice restores every number below 2^len. */
  lemma {:induction false} ReverseBitsInvolution(i: nat, len: nat)
    requires i < Pow(2, len)
    ensures ReverseBits(ReverseBits(i, len), len) == i
  {
    var bs := Reverse(ToBits(i, len));
    ToFromBits(bs);
    ReverseReverse(ToBits(i, len));
    FromToBits(i, len);
  }

  /** Distinct indices below 2^len have distinct reversals. */
  lemma {:induction false} ReverseBitsInjective(i: nat, j: nat, len: nat)
    requires i < Pow(2, len) && j < Pow(2, len) && i != j
    ensures ReverseBits(i, len) != ReverseBits(j, len)
  {
    ReverseBitsInvolution(i, len);
    ReverseBitsInvolution(j, len);
  }

  /** Every target index bit_shuffle writes is below n, whether or not n is a
      power of two. */
  lemma {:induction false} ShuffleTargetInBounds(i: nat, n: nat)
    requires 1 <= n < WordModulus
    ensures ReverseBits(i, IndexLen(n)) < n
  {
  }

  /** Moving the low bit of index into the accumulator keeps the value the
      loop is heading for. */
  lemma {:induction false} AccumulateStep(acc: nat, index: nat, rest: nat)
    ensures (acc * 2 + index % 2) * Pow(2, rest) + ReverseBits(index / 2, rest)
         == acc * Pow(2, rest + 1) + ReverseBits(index, rest + 1)
  {
    ReverseBitsStep(index, rest + 1);
    var p := Pow(2, rest);
    assert Pow(2, rest + 1) == 2 * p;
    calc {
      (acc * 2 + index % 2) * p;
      acc * (2 * p) + (index % 2) * p;
    }
  }

  /** The shift-and-accumulate loop of bit_shuffle for one index: shift the
      accumulator left, add the low bit of the index, shift the index right. */
  method ReverseIndex(i: nat, len: nat) returns (newIndex: nat)
    ensures newIndex == ReverseBits(i, len)
  {
    var index: nat := i;
    newIndex := 0;
    var j := 0;
    while j < len
      invariant j <= len
      invariant newIndex * Pow(2, len - j) + ReverseBits(index, len - j) == ReverseBits(i, len)
    {
      AccumulateStep(newIndex, index, len - j - 1);
      newIndex := newIndex * 2 + index % 2;
      index := index / 2;
      j := j + 1;
    }
  }

  /** The bit-reversed order of s: position k holds the element whose index is
      the reversal of k. */
  function BitReversed<X>(s: seq<X>): (r: seq<X>)
    requires IsPow2(|s|)
    ensures |r| == |s|
  {
    Log2OfPow2(|s|);
    seq(|s|, k requires 0 <= k < |s| => s[ReverseBits(k, Log2(|s|))])
  }

  /** The element at index i lands at the reversal of i: out[rev(i)] == in[i]. */
  lemma {:induction false} BitReversedMoves<X>(s: seq<X>, i: nat)
    requires IsPow2(|s|) && i < |s|
    ensures ReverseBits(i, Log2(|s|)) < |s|
    ensures BitReversed(s)[ReverseBits(i, Log2(|s|))] == s[i]
  {
    Log2OfPow2(|s|);
    ReverseBitsInvolution(i, Log2(|s|));
  }

  /** Shuffling twice restores the input. */
  lemma {:induction false} BitReversedInvolution<X>(s: seq<X>)
    requires IsPow2(|s|)
    ensures BitReversed(BitReversed(s)) == s
  {
    Log2OfPow2(|s|);
    forall k | 0 <= k < |s|
      ensures BitReversed(BitReversed(s))[k] == s[k]
    {
      ReverseBitsInvolution(k, Log2(|s|));
    }
  }

  /** bit_shuffle: out[reverse(i)] := in[i] for every i < n. For n a power of
      two the writes hit every position below n once, so out holds the
      bit-reversed order of the input; for any n no position at or above n is
      written. */
  method BitShuffle<E>(inp: array<E>, out: array<E>, n: nat)
    requires n <= inp.Length && n <= out.Length && n < WordModulus
    requires inp != out
    modifies out
    ensures forall k :: n <= k < out.Length ==> out[k] == old(out[k])
    ensures IsPow2(n) ==> out[..n] == BitReversed(inp[..n])
  {
    var indexLen := IndexLen(n);
    for i := 0 to n
      invariant forall k :: n <= k < out.Length ==> out[k] == old(out[k])
      invariant IsPow2(n) ==> forall i' :: 0 <= i' < i ==> out[ReverseBits(i', indexLen)] == inp[i']
    {
      var newIndex := ReverseIndex(i, indexLen);
      out[newIndex] := inp[i];
      if IsPow2(n) {
        Log2OfPow2(n);
        forall i' | 0 <= i' < i
          ensures ReverseBits(i', indexLen) != newIndex
        {
          ReverseBitsInjective(i', i, indexLen);
        }
      }
    }
    if IsPow2(n) {
      Log2OfPow2(n);
      forall k | 0 <= k < n
        ensures out[k] == BitReversed(inp[..n])[k]
      {
        ReverseBitsInvolution(k, indexLen);
      }
    }
  }
}
