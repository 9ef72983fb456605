/** The index structure of the radix-2 decimation-in-time FFT in lab-5: the
    recursive transform (fft, and ifft, which differs only in the sign of the
    twiddle angle) and the staged transform run by parallel_fft. Element values
    are generic and the butterfly is a parameter
      bf(r1, r2, i, n) == (new out[i], new out[i + n/2])
    standing for (r1 + w*r2, r1 - w*r2) with w = polar(1, -+2*pi*i/n). */
module Fft {
  import opened Arith
  import opened BitReversal

  // ---------------------------------------------------------------------
  // Specification

  /** The new values of positions i..h-1 of a block of size 2h: the first
      output of the butterfly of each position and its partner h further on. */
  function Lows<E>(bf: (E, E, nat, nat) -> (E, E), s: seq<E>, h: nat, i: nat): (r: seq<E>)
    requires i <= h && |s| == 2 * h
    ensures |r| == h - i
    decreases h - i
  {
    if i == h then [] else [bf(s[i], s[i + h], i, 2 * h).0] + Lows(bf, s, h, i + 1)
  }

  /** The new values of positions h+i..2h-1: the second butterfly outputs. */
  function Highs<E>(bf: (E, E, nat, nat) -> (E, E), s: seq<E>, h: nat, i: nat): (r: seq<E>)
    requires i <= h && |s| == 2 * h
    ensures |r| == h - i
    decreases h - i
  {
    if i == h then [] else [bf(s[i], s[i + h], i, 2 * h).1] + Highs(bf, s, h, i + 1)
  }

  /** The combine step on one block s of even length n: position i < n/2 and
      its partner i + n/2 are replaced by the butterfly of the pair. */
  function Butterflies<E>(bf: (E, E, nat, nat) -> (E, E), s: seq<E>): (r: seq<E>)
    requires |s| % 2 == 0
    ensures |r| == |s|
  {
    Lows(bf, s, |s| / 2, 0) + Highs(bf, s, |s| / 2, 0)
  }

  /** The recursive transform of the n elements of s from lo on: a single
      element is copied, otherwise both halves are transformed and combined. */
  function FftAt<E>(bf: (E, E, nat, nat) -> (E, E), s: seq<E>, lo: nat, n: nat): (r: seq<E>)
    requires IsPow2(n) && lo + n <= |s|
    ensures |r| == n
    decreases n
  {
    if n == 1 then [s[lo]]
    else
      var h := n / 2;
      Butterflies(bf, FftAt(bf, s, lo, h) + FftAt(bf, s, lo + h, h))
  }

  /** The transform of a whole sequence. */
  function Transform<E>(bf: (E, E, nat, nat) -> (E, E), s: seq<E>): (r: seq<E>)
    requires IsPow2(|s|)
  {
    FftAt(bf, s, 0, |s|)
  }

  /** The length of the chain of sizes n, n/2, ..., 1 that the recursive
      calls of fft pass down. This counts halvings on its own: it is not
      computed from RecursiveFft's calls, whose size argument follows the
      same chain. */
  function RecursionDepth(n: nat): nat
    requires IsPow2(n)
    decreases n
  {
    if n == 1 then 0 else 1 + RecursionDepth(n / 2)
  }

  /** Halving a power of two n reaches 1 after exactly log2 n steps, so the
      chain of sizes fft recurses through has log2 n levels. */
  lemma {:induction false} RecursionDepthIsLog2(n: nat)
    requires IsPow2(n)
    ensures RecursionDepth(n) == Log2(n) && Pow(2, RecursionDepth(n)) == n
    decreases n
  {
    if n != 1 {
      RecursionDepthIsLog2(n / 2);
      assert BitLength(n) == 1 + BitLength(n / 2);
    }
  }

  /** a is a whole number of blocks of size n (a multiple of n). */
  predicate IsMultiple(a: nat, n: nat)
    decreases a
  {
    a == 0 || (1 <= n <= a && IsMultiple(a - n, n))
  }

  /** The number of whole blocks of size n below a. */
  function BlockIndex(a: nat, n: nat): nat
    requires n >= 1
    decreases a
  {
    if a < n then 0 else 1 + BlockIndex(a - n, n)
  }

  /** The blocks of size n of s[j..N], each transformed on its own: the state
      of the shared buffer once the stages up to block size n are done. */
  function Blocks<E>(bf: (E, E, nat, nat) -> (E, E), s: seq<E>, N: nat, n: nat, j: nat): (r: seq<E>)
    requires IsPow2(n) && j <= N <= |s| && IsMultiple(N - j, n)
    ensures |r| == N - j
    decreases N - j
  {
    if j == N then [] else FftAt(bf, s, j, n) + Blocks(bf, s, N, n, j + n)
  }

  /** One stage of the iterative transform: the combine step on every block of size n. */
  function Stage<E>(bf: (E, E, nat, nat) -> (E, E), s: seq<E>, n: nat): (r: seq<E>)
    requires n >= 2 && n % 2 == 0 && IsMultiple(|s|, n)
    ensures |r| == |s|
    decreases |s|
  {
    if |s| == 0 then [] else Butterflies(bf, s[..n]) + Stage(bf, s[n..], n)
  }

  /** The thread that owns block b when blocks are dealt out to T threads in
      turn: b modulo T, as repeated subtraction. */
  function Owner(b: nat, T: nat): (t: nat)
    requires T >= 1
    ensures t < T
    decreases b
  {
    if b < T then b else Owner(b - T, T)
  }

  /** k blocks of size n, as repeated addition. */
  function Times(k: nat, n: nat): nat
  {
    if k == 0 then 0 else Times(k - 1, n) + n
  }

  // ---------------------------------------------------------------------
  // Sequence and block arithmetic

  lemma {:induction false} LowsAt<E>(bf: (E, E, nat, nat) -> (E, E), s: seq<E>, h: nat, i: nat, k: nat)
    requires i <= k < h && |s| == 2 * h
    ensures Lows(bf, s, h, i)[k - i] == bf(s[k], s[k + h], k, 2 * h).0
    decreases k - i
  {
    if i < k {
      LowsAt(bf, s, h, i + 1, k);
    }
  }

  lemma {:induction false} HighsAt<E>(bf: (E, E, nat, nat) -> (E, E), s: seq<E>, h: nat, i: nat, k: nat)
    requires i <= k < h && |s| == 2 * h
    ensures Highs(bf, s, h, i)[k - i] == bf(s[k], s[k + h], k, 2 * h).1
    decreases k - i
  {
    if i < k {
      HighsAt(bf, s, h, i + 1, k);
    }
  }

  /** Position k < n/2 of the combined block holds the first butterfly output
      of k and k + n/2; position k + n/2 holds the second. */
  lemma {:induction false} ButterfliesAt<E>(bf: (E, E, nat, nat) -> (E, E), s: seq<E>, k: nat)
    requires |s| % 2 == 0 && k < |s| / 2
    ensures var h := |s| / 2;
      Butterflies(bf, s)[k] == bf(s[k], s[k + h], k, |s|).0 &&
      Butterflies(bf, s)[k + h] == bf(s[k], s[k + h], k, |s|).1
  {
    var h := |s| / 2;
    LowsAt(bf, s, h, 0, k);
    HighsAt(bf, s, h, 0, k);
  }

  /** ButterfliesAt, with the block size and the partner index named. */
  lemma {:induction false} ButterflyPair<E>(bf: (E, E, nat, nat) -> (E, E), s: seq<E>, n: nat, h: nat, i: nat, partner: nat)
    requires |s| == n && h + h == n && i < h && partner == i + h
    ensures Butterflies(bf, s)[i] == bf(s[i], s[partner], i, n).0
    ensures Butterflies(bf, s)[partner] == bf(s[i], s[partner], i, n).1
  {
    ButterfliesAt(bf, s, i);
  }

  lemma {:induction false} ConcatAssoc<X>(a: seq<X>, b: seq<X>, c: seq<X>)
    ensures a + b + c == a + (b + c)
  {
  }

  /** A window of a suffix is a window of the whole, at shifted bounds b2, c2. */
  lemma {:induction false} SliceOfSuffix<X>(s: seq<X>, a: nat, b: nat, c: nat, b2: nat, c2: nat)
    requires a + c <= |s| && b <= c && b2 == a + b && c2 == a + c
    ensures s[a..][b..c] == s[b2..c2]
  {
  }

  /** A window [lo, hi) that lies outside the changed range [a, b) keeps its
      contents. */
  lemma {:induction false} KeptWindow<X>(before: seq<X>, after: seq<X>, a: nat, b: nat, lo: nat, hi: nat)
    requires |before| == |after| && lo <= hi <= |after| && (hi <= a || b <= lo)
    requires forall k :: 0 <= k < |after| && !(a <= k < b) ==> after[k] == before[k]
    ensures after[lo..hi] == before[lo..hi]
  {
  }

  /** Two adjacent windows with known contents make up the window spanning both. */
  lemma {:induction false} JoinWindows<X>(x: seq<X>, a: nat, m: nat, b: nat, p: seq<X>, q: seq<X>)
    requires a <= m <= b <= |x| && x[a..m] == p && x[m..b] == q
    ensures x[a..b] == p + q
  {
    assert x[a..b] == x[a..m] + x[m..b];
  }

  /** The same window, with its end written two ways. */
  lemma {:induction false} SameWindow<X>(s: seq<X>, lo: nat, hi: nat, hi2: nat)
    requires lo <= hi <= |s| && hi == hi2
    ensures s[lo..hi] == s[lo..hi2]
  {
  }

  /** A sequence is its first n elements, as a window from 0, and the rest. */
  lemma {:induction false} SplitFirst<X>(s: seq<X>, n: nat)
    requires n <= |s|
    ensures s == s[0..0 + n] + s[n..]
  {
    assert s[0..0 + n] == s[..n];
  }

  lemma {:induction false} MultipleAdd(a: nat, b: nat, n: nat)
    requires IsMultiple(a, n) && IsMultiple(b, n)
    ensures IsMultiple(a + b, n)
    decreases a
  {
    if a > 0 {
      MultipleAdd(a - n, b, n);
    }
  }

  /** A multiple of m = 2n is a multiple of n. */
  lemma {:induction false} MultipleOfDoubleBlock(a: nat, n: nat, m: nat)
    requires m == n + n && IsMultiple(a, m)
    ensures IsMultiple(a, n)
    decreases a
  {
    if a > 0 {
      MultipleOfDoubleBlock(a - m, n, m);
      assert IsMultiple(a - n, n);
    }
  }

  /** A whole block that fits below N ends at or before N - N % n, the end
      of the last whole block. */
  lemma {:induction false} BlockBelowFloor(a: nat, n: nat, N: nat)
    requires n >= 1 && IsMultiple(a, n) && a + n <= N
    ensures a + n <= N - N % n
    decreases a
  {
    if a > 0 {
      BlockBelowFloor(a - n, n, N - n);
      ModAddMultiple(N - n, 1, n);
    } else {
      DivModNat(N, n);
      MulMonotone(N / n, 1, n);
    }
  }

  /** Two different block starts are at least a block apart, so the blocks
      of one stage are pairwise disjoint. */
  lemma {:induction false} MultiplesApart(a: nat, b: nat, n: nat)
    requires IsMultiple(a, n) && IsMultiple(b, n) && a < b
    ensures a + n <= b && BlockIndex(a, n) < BlockIndex(b, n)
    decreases a
  {
    if a > 0 {
      MultiplesApart(a - n, b - n, n);
    }
  }

  lemma {:induction false} TimesIsProduct(k: nat, n: nat)
    ensures Times(k, n) == k * n
  {
    if k > 0 {
      TimesIsProduct(k - 1, n);
    }
  }

  /** Moving k blocks forward from a block start. */
  lemma {:induction false} MultipleShift(a: nat, k: nat, n: nat)
    requires n >= 1 && IsMultiple(a, n)
    ensures IsMultiple(a + Times(k, n), n) && BlockIndex(a + Times(k, n), n) == BlockIndex(a, n) + k
    decreases k
  {
    if k > 0 {
      MultipleShift(a, k - 1, n);
    }
  }

  /** The b-th block starts at b*n. */
  lemma {:induction false} BlockStart(a: nat, n: nat)
    requires n >= 1 && IsMultiple(a, n)
    ensures a == BlockIndex(a, n) * n
    decreases a
  {
    if a > 0 {
      BlockStart(a - n, n);
    }
  }

  lemma {:induction false} OwnerIsMod(b: nat, T: nat)
    requires T >= 1
    ensures Owner(b, T) == b % T
    decreases b
  {
    if b >= T {
      OwnerIsMod(b - T, T);
      ModAddMultiple(b - T, 1, T);
    } else {
      DivModUnique(b, T, 0, b);
    }
  }

  /** Two block indices with the same owner that are less than T apart are equal. */
  lemma {:induction false} OwnerClose(a: nat, b: nat, T: nat)
    requires T >= 1 && Owner(a, T) == Owner(b, T) && a <= b < a + T
    ensures a == b
    decreases a
  {
    if a >= T {
      OwnerClose(a - T, b - T, T);
    }
  }

  /** A power of two above 1 is twice a power of two. */
  lemma {:induction false} HalfOfPow2(n: nat)
    requires IsPow2(n) && n != 1
    ensures IsPow2(n / 2) && n / 2 + n / 2 == n
  {
  }

  lemma {:induction false} DoublePow2(n: nat)
    requires IsPow2(n)
    ensures IsPow2(n + n)
  {
    assert (n + n) / 2 == n;
  }

  /** The transform of a window of size m = 2n combines the transforms of its
      halves, which start at lo and at mid = lo + n. */
  lemma {:induction false} FftAtDouble<E>(bf: (E, E, nat, nat) -> (E, E), s: seq<E>, lo: nat, mid: nat, n: nat, m: nat)
    requires IsPow2(n) && mid == lo + n && m == n + n && lo + m <= |s|
    ensures IsPow2(m) && |FftAt(bf, s, lo, n) + FftAt(bf, s, mid, n)| % 2 == 0
    ensures FftAt(bf, s, lo, m) == Butterflies(bf, FftAt(bf, s, lo, n) + FftAt(bf, s, mid, n))
  {
    DoublePow2(n);
    assert m / 2 == n;
  }

  /** A power of two below another fits into it at least twice. */
  lemma {:induction false} Pow2Below(n: nat, m: nat)
    requires IsPow2(n) && IsPow2(m) && n < m
    ensures 2 * n <= m
    decreases m
  {
    if n >= 2 {
      Pow2Below(n / 2, m / 2);
    }
  }

  /** A power of two is a whole number of blocks of every smaller power of two. */
  lemma {:induction false} Pow2Divides(n: nat, m: nat)
    requires IsPow2(n) && IsPow2(m) && n <= m
    ensures IsMultiple(m, n)
    decreases m
  {
    if n == m {
      assert IsMultiple(0, n);
    } else {
      Pow2Below(n, m);
      Pow2Divides(n, m / 2);
      MultipleAdd(m / 2, m / 2, n);
    }
  }

  // ---------------------------------------------------------------------
  // Properties of the specification

  /** The transform of a window depends on nothing but the window: fft reads
      only in[0..n). */
  lemma {:induction false} FftAtWindow<E>(bf: (E, E, nat, nat) -> (E, E), s: seq<E>, lo: nat, t: seq<E>, lo': nat, n: nat)
    requires IsPow2(n) && lo + n <= |s| && lo' + n <= |t|
    requires s[lo..lo + n] == t[lo'..lo' + n]
    ensures FftAt(bf, s, lo, n) == FftAt(bf, t, lo', n)
    decreases n
  {
    if n != 1 {
      var h := n / 2;
      HalfOfPow2(n);
      WindowHalves(s, lo, t, lo', n, h);
      FftAtWindow(bf, s, lo, t, lo', h);
      FftAtWindow(bf, s, lo + h, t, lo' + h, h);
      SameHalves(bf, s, lo, lo + h, t, lo', lo' + h, h, n);
    } else {
      assert s[lo] == s[lo..lo + n][0] && t[lo'] == t[lo'..lo' + n][0];
      SingleWindow(bf, s, lo, t, lo');
    }
  }

  /** The transform of a single element is that element. */
  lemma {:induction false} SingleWindow<E>(bf: (E, E, nat, nat) -> (E, E), s: seq<E>, lo: nat, t: seq<E>, lo': nat)
    requires lo < |s| && lo' < |t| && s[lo] == t[lo']
    ensures FftAt(bf, s, lo, 1) == [s[lo]] == FftAt(bf, t, lo', 1)
  {
  }

  /** Two windows of size n = 2h whose halves have equal transforms have equal
      transforms. */
  lemma {:induction false} SameHalves<E>(bf: (E, E, nat, nat) -> (E, E), s: seq<E>, lo: nat, mid: nat,
                                         t: seq<E>, lo': nat, mid': nat, h: nat, n: nat)
    requires IsPow2(h) && n == h + h && mid == lo + h && mid' == lo' + h && lo + n <= |s| && lo' + n <= |t|
    requires FftAt(bf, s, lo, h) == FftAt(bf, t, lo', h) && FftAt(bf, s, mid, h) == FftAt(bf, t, mid', h)
    ensures IsPow2(n) && FftAt(bf, s, lo, n) == FftAt(bf, t, lo', n)
  {
    FftAtDouble(bf, s, lo, mid, h, n);
    FftAtDouble(bf, t, lo', mid', h, n);
  }

  /** Equal windows have equal halves. */
  lemma {:induction false} WindowHalves<X>(s: seq<X>, lo: nat, t: seq<X>, lo': nat, n: nat, h: nat)
    requires h + h == n && lo + n <= |s| && lo' + n <= |t| && s[lo..lo + n] == t[lo'..lo' + n]
    ensures s[lo..lo + h] == t[lo'..lo' + h] && s[lo + h..lo + h + h] == t[lo' + h..lo' + h + h]
  {
    assert s[lo..lo + h] == s[lo..lo + n][..h];
    assert t[lo'..lo' + h] == t[lo'..lo' + n][..h];
    assert s[lo + h..lo + h + h] == s[lo..lo + n][h..];
    assert t[lo' + h..lo' + h + h] == t[lo'..lo' + n][h..];
  }

  /** The two halves of a concatenation, as windows. */
  lemma {:induction false} ConcatWindows<X>(lo: seq<X>, hi: seq<X>, n: nat)
    requires |lo| == n && |hi| == n
    ensures (lo + hi)[0..0 + n] == lo[0..0 + n] && (lo + hi)[n..n + n] == hi[0..0 + n]
  {
    assert (lo + hi)[0..0 + n] == lo;
    assert (lo + hi)[n..n + n] == hi;
  }

  /** The transform of two equal halves combines their transforms. */
  lemma {:induction false} FftHalves<E>(bf: (E, E, nat, nat) -> (E, E), lo: seq<E>, hi: seq<E>)
    requires IsPow2(|lo|) && |hi| == |lo|
    ensures IsPow2(|lo + hi|)
    ensures Transform(bf, lo + hi) == Butterflies(bf, Transform(bf, lo) + Transform(bf, hi))
  {
    var n := |lo|;
    FftAtDouble(bf, lo + hi, 0, n, n, |lo + hi|);
    ConcatWindows(lo, hi, n);
    FftAtWindow(bf, lo + hi, 0, lo, 0, n);
    FftAtWindow(bf, lo + hi, n, hi, 0, n);
  }

  /** Blocks of size 1 are already transformed: the scattered input is the
      state before the first stage. */
  lemma {:induction false} BlocksUnit<E>(bf: (E, E, nat, nat) -> (E, E), s: seq<E>, N: nat, j: nat)
    requires j <= N <= |s|
    ensures IsPow2(1) && IsMultiple(N - j, 1) && Blocks(bf, s, N, 1, j) == s[j..N]
    decreases N - j
  {
    if j < N {
      BlocksUnit(bf, s, N, j + 1);
      assert s[j..N] == [s[j]] + s[j + 1..N];
    }
  }

  /** One block covering the whole buffer is the recursive transform. */
  lemma {:induction false} BlocksWhole<E>(bf: (E, E, nat, nat) -> (E, E), s: seq<E>, N: nat)
    requires IsPow2(N) && N <= |s|
    ensures IsMultiple(N, N) && Blocks(bf, s, N, N, 0) == FftAt(bf, s, 0, N)
  {
    assert IsMultiple(0, N);
  }

  /** The first block of a non-empty buffer and the rest. */
  lemma {:induction false} BlocksUnfold<E>(bf: (E, E, nat, nat) -> (E, E), s: seq<E>, N: nat, n: nat, j: nat, next: nat)
    requires IsPow2(n) && j < N <= |s| && IsMultiple(N - j, n) && next == j + n
    ensures next <= N && IsMultiple(N - next, n)
    ensures Blocks(bf, s, N, n, j) == FftAt(bf, s, j, n) + Blocks(bf, s, N, n, next)
  {
    MultipleAfterBlock(N, n, j, next);
  }

  /** What is left after the first of a whole number of blocks is again a
      whole number of blocks. */
  lemma {:induction false} MultipleAfterBlock(N: nat, n: nat, j: nat, next: nat)
    requires j < N && IsMultiple(N - j, n) && next == j + n
    ensures next <= N && IsMultiple(N - next, n)
  {
    assert IsMultiple((N - j) - n, n);
  }

  /** A stage over a leading block of size m followed by the rest. */
  lemma {:induction false} StageFirst<E>(bf: (E, E, nat, nat) -> (E, E), p: seq<E>, r: seq<E>, m: nat)
    requires m >= 2 && m % 2 == 0 && |p| == m && IsMultiple(|r|, m)
    ensures IsMultiple(|p + r|, m)
    ensures Stage(bf, p + r, m) == Butterflies(bf, p) + Stage(bf, r, m)
  {
    assert (p + r)[..m] == p && (p + r)[m..] == r;
  }

  /** The stage of block size 2n turns blocks transformed at size n into blocks
      transformed at size 2n: the recursive transform's combine step, applied
      to every block at once. */
  lemma {:induction false} BlocksDoubling<E>(bf: (E, E, nat, nat) -> (E, E), s: seq<E>, N: nat, n: nat, m: nat, j: nat)
    requires IsPow2(n) && m == n + n && j <= N <= |s| && IsMultiple(N - j, m)
    ensures IsPow2(m) && IsMultiple(N - j, n)
    ensures Blocks(bf, s, N, m, j) == Stage(bf, Blocks(bf, s, N, n, j), m)
    decreases N - j
  {
    MultipleOfDoubleBlock(N - j, n, m);
    DoublePow2(n);
    if j < N {
      var j2 := j + m;
      MultipleAfterBlock(N, m, j, j2);
      MultipleOfDoubleBlock(N - j2, n, m);
      BlocksDoubling(bf, s, N, n, m, j2);
      BlocksDoublingStep(bf, s, N, n, m, j, j + n, j2);
    } else {
      assert Blocks(bf, s, N, n, j) == [];
    }
  }

  /** The step of BlocksDoubling: if the claim holds from the next block of
      size m = 2n on, it holds from j. */
  lemma {:induction false} BlocksDoublingStep<E>(bf: (E, E, nat, nat) -> (E, E), s: seq<E>, N: nat, n: nat, m: nat,
                                                 j: nat, j1: nat, j2: nat)
    requires IsPow2(n) && IsPow2(m) && m == n + n && j1 == j + n && j2 == j1 + n && j < N <= |s|
    requires IsMultiple(N - j, m) && IsMultiple(N - j, n) && IsMultiple(N - j2, m) && IsMultiple(N - j2, n)
    requires Blocks(bf, s, N, m, j2) == Stage(bf, Blocks(bf, s, N, n, j2), m)
    ensures Blocks(bf, s, N, m, j) == Stage(bf, Blocks(bf, s, N, n, j), m)
  {
    var a, b, rest := FftAt(bf, s, j, n), FftAt(bf, s, j1, n), Blocks(bf, s, N, n, j2);
    BlocksUnfold(bf, s, N, n, j, j1);
    BlocksUnfold(bf, s, N, n, j1, j2);
    BlocksUnfold(bf, s, N, m, j, j2);
    FftAtDouble(bf, s, j, j1, n, m);
    StageAfterPair(bf, a, b, rest, m);
  }

  /** The stage over two adjacent half-blocks followed by the rest. */
  lemma {:induction false} StageAfterPair<E>(bf: (E, E, nat, nat) -> (E, E), a: seq<E>, b: seq<E>, rest: seq<E>, m: nat)
    requires |a| == |b| && m == |a| + |b| && m >= 2 && IsMultiple(|rest|, m)
    ensures IsMultiple(|a + (b + rest)|, m) && |a + b| % 2 == 0
    ensures Stage(bf, a + (b + rest), m) == Butterflies(bf, a + b) + Stage(bf, rest, m)
  {
    ConcatAssoc(a, b, rest);
    StageFirst(bf, a + b, rest, m);
  }

  /** A block of the suffix after the first block is a block of the whole. */
  lemma {:induction false} BlockOfSuffix<E>(bf: (E, E, nat, nat) -> (E, E), s: seq<E>, x: seq<E>, n: nat, j: nat)
    requires n >= 2 && n % 2 == 0 && j + n + n <= |s| && |x| == |s|
    requires x[j + n..j + n + n] == Butterflies(bf, s[j + n..j + n + n])
    ensures x[n..][j..j + n] == Butterflies(bf, s[n..][j..j + n])
  {
    SliceOfSuffix(x, n, j, j + n, j + n, j + n + n);
    SliceOfSuffix(s, n, j, j + n, j + n, j + n + n);
  }

  /** A buffer whose every block of size n is the combine step of the same
      block of s holds the stage of s. */
  lemma {:induction false} StageFromBlocks<E>(bf: (E, E, nat, nat) -> (E, E), s: seq<E>, x: seq<E>, n: nat)
    requires n >= 2 && n % 2 == 0 && IsMultiple(|s|, n) && |x| == |s|
    requires forall j: nat {:trigger IsMultiple(j, n)} :: IsMultiple(j, n) && j + n <= |s| ==> x[j..j + n] == Butterflies(bf, s[j..j + n])
    ensures x == Stage(bf, s, n)
    decreases |s|
  {
    if |s| > 0 {
      assert IsMultiple(0, n);
      forall j: nat | IsMultiple(j, n) && j + n <= |s| - n
        ensures x[n..][j..j + n] == Butterflies(bf, s[n..][j..j + n])
      {
        MultipleAdd(j, n, n);
        BlockOfSuffix(bf, s, x, n, j);
      }
      StageFromBlocks(bf, s[n..], x[n..], n);
      SplitFirst(x, n);
      SplitFirst(s, n);
    }
  }

  // ---------------------------------------------------------------------
  // How the work is split between threads

  /** Scatter: position t + i*T is reached by thread t on its i-th step, and by
      no other thread or step, so the threads' index sets partition [0, N). */
  lemma {:induction false} ScatterIndexUnique(t: nat, i: nat, T: nat)
    requires t < T
    ensures (t + i * T) % T == t && (t + i * T) / T == i
  {
    DivModUnique(t + i * T, T, i, t);
  }

  /** Stage of block size n: thread t's k-th block starts at t*n + k*T*n; it
      is a block start and its owner is t. */
  lemma {:induction false} ThreadBlockOwned(t: nat, k: nat, n: nat, T: nat)
    requires t < T && n >= 1
    ensures IsMultiple(t * n + k * (T * n), n)
    ensures Owner(BlockIndex(t * n + k * (T * n), n), T) == t
  {
    var b := t + k * T;
    TimesIsProduct(b, n);
    MultipleShift(0, b, n);
    RoundStart(t, k, T, n);
    assert 0 + Times(b, n) == t * n + k * (T * n);
    OwnerIsMod(b, T);
    ScatterIndexUnique(t, k, T);
  }

  /** Every block start j is t*n + k*T*n for the thread t that owns it, so the
      blocks of all threads together are all the blocks, each dealt to exactly
      one thread. */
  lemma {:induction false} BlockHasThread(j: nat, n: nat, T: nat)
    requires IsMultiple(j, n) && n >= 1 && T >= 1
    ensures var b := BlockIndex(j, n);
      j == Owner(b, T) * n + (b / T) * (T * n)
  {
    var b := BlockIndex(j, n);
    BlockStart(j, n);
    OwnerIsMod(b, T);
    BlockRound(b, T, n);
  }

  /** The block of size n at j after a stage, if combined says its thread has
      already processed it, or as it was before. */
  function BlockAfter<E>(bf: (E, E, nat, nat) -> (E, E), orig: seq<E>, j: nat, n: nat, combined: bool): (r: seq<E>)
    requires n % 2 == 0 && j + n <= |orig|
    ensures |r| == n
  {
    if combined then Butterflies(bf, orig[j..j + n]) else orig[j..j + n]
  }

  /** Thread t's blocks of size n below limit have gone through the combine
      step; every other block below N is still as in orig. */
  ghost predicate ThreadDone<E>(bf: (E, E, nat, nat) -> (E, E), x: seq<E>, orig: seq<E>, N: nat, n: nat, T: nat, t: nat, limit: nat)
    requires n >= 2 && n % 2 == 0 && N <= |x| && N <= |orig| && T >= 1
  {
    forall j: nat {:trigger IsMultiple(j, n)} :: IsMultiple(j, n) && j + n <= N ==>
      x[j..j + n] == BlockAfter(bf, orig, j, n, Owner(BlockIndex(j, n), T) == t && j < limit)
  }

  /** The blocks of size n below N of threads 0..t-1 have gone through the
      combine step; every other block is still as in orig. */
  ghost predicate StageDone<E>(bf: (E, E, nat, nat) -> (E, E), x: seq<E>, orig: seq<E>, N: nat, n: nat, T: nat, t: nat)
    requires n >= 2 && n % 2 == 0 && N <= |x| && N <= |orig| && T >= 1
  {
    forall j: nat {:trigger IsMultiple(j, n)} :: IsMultiple(j, n) && j + n <= N ==>
      x[j..j + n] == BlockAfter(bf, orig, j, n, Owner(BlockIndex(j, n), T) < t)
  }

  /** Thread t's first block starts at t*n, and none of its blocks lies below it. */
  lemma {:induction false} ThreadStart<E>(bf: (E, E, nat, nat) -> (E, E), x: seq<E>, N: nat, n: nat, T: nat, t: nat)
    requires n >= 2 && n % 2 == 0 && N <= |x| && t < T
    ensures IsMultiple(t * n, n) && Owner(BlockIndex(t * n, n), T) == t
    ensures ThreadDone(bf, x, x, N, n, T, t, t * n)
  {
    ThreadBlockOwned(t, 0, n, T);
    TimesIsProduct(t, n);
    MultipleShift(0, t, n);
    forall j: nat | IsMultiple(j, n) && j < t * n
      ensures Owner(BlockIndex(j, n), T) != t
    {
      MultiplesApart(j, t * n, n);
    }
  }

  /** One pass of a thread's block loop: combining its block at start moves
      the limit on to its next block, T blocks further. */
  lemma {:induction false} ThreadStep<E>(bf: (E, E, nat, nat) -> (E, E), x: seq<E>, y: seq<E>, orig: seq<E>,
                      N: nat, n: nat, T: nat, t: nat, start: nat, next: nat)
    requires n >= 2 && n % 2 == 0 && N <= |x| == |y| && N <= |orig| && T >= 1
    requires IsMultiple(start, n) && Owner(BlockIndex(start, n), T) == t && start + n <= N
    requires ThreadDone(bf, x, orig, N, n, T, t, start)
    requires y[start..start + n] == Butterflies(bf, x[start..start + n])
    requires forall k :: 0 <= k < |y| && !(start <= k < start + n) ==> y[k] == x[k]
    requires next == start + T * n
    ensures IsMultiple(next, n) && Owner(BlockIndex(next, n), T) == t
    ensures ThreadDone(bf, y, orig, N, n, T, t, next)
  {
    ThreadNext(n, T, t, start, next);
    ThreadStepAll(bf, x, y, orig, N, n, T, t, start, next);
  }

  /** ThreadStep with the start of the thread's next block named. */
  lemma {:induction false} ThreadStepAll<E>(bf: (E, E, nat, nat) -> (E, E), x: seq<E>, y: seq<E>, orig: seq<E>,
                      N: nat, n: nat, T: nat, t: nat, start: nat, next: nat)
    requires n >= 2 && n % 2 == 0 && N <= |x| == |y| && N <= |orig| && T >= 1
    requires IsMultiple(start, n) && Owner(BlockIndex(start, n), T) == t && start + n <= N
    requires next >= start + n && IsMultiple(next, n) && BlockIndex(next, n) == BlockIndex(start, n) + T
    requires ThreadDone(bf, x, orig, N, n, T, t, start)
    requires y[start..start + n] == Butterflies(bf, x[start..start + n])
    requires forall k :: 0 <= k < |y| && !(start <= k < start + n) ==> y[k] == x[k]
    ensures ThreadDone(bf, y, orig, N, n, T, t, next)
  {
    forall j: nat | IsMultiple(j, n) && j + n <= N
      ensures y[j..j + n] == BlockAfter(bf, orig, j, n, Owner(BlockIndex(j, n), T) == t && j < next)
    {
      assert x[j..j + n] == BlockAfter(bf, orig, j, n, Owner(BlockIndex(j, n), T) == t && j < start);
      ThreadStepBlock(bf, x, y, orig, N, n, T, t, start, next, j);
    }
  }

  /** A thread's next block starts T blocks further on and belongs to it too. */
  lemma {:induction false} ThreadNext(n: nat, T: nat, t: nat, start: nat, next: nat)
    requires n >= 1 && T >= 1 && IsMultiple(start, n) && Owner(BlockIndex(start, n), T) == t && next == start + T * n
    ensures next >= start + n && IsMultiple(next, n) && BlockIndex(next, n) == BlockIndex(start, n) + T
    ensures Owner(BlockIndex(next, n), T) == t
  {
    TimesIsProduct(T, n);
    MulMonotone(T, 1, n);
    MultipleShift(start, T, n);
    OwnerIsMod(BlockIndex(start, n), T);
    OwnerIsMod(BlockIndex(next, n), T);
    ModAddMultiple(BlockIndex(start, n), 1, T);
  }

  /** ThreadStep for the block at j: combining the block at start changes no
      other block, and no block of thread t lies strictly between start and next. */
  lemma {:induction false} ThreadStepBlock<E>(bf: (E, E, nat, nat) -> (E, E), x: seq<E>, y: seq<E>, orig: seq<E>,
                      N: nat, n: nat, T: nat, t: nat, start: nat, next: nat, j: nat)
    requires n >= 2 && n % 2 == 0 && N <= |x| == |y| && N <= |orig| && T >= 1
    requires IsMultiple(start, n) && Owner(BlockIndex(start, n), T) == t && start + n <= N
    requires next >= start + n && IsMultiple(next, n) && BlockIndex(next, n) == BlockIndex(start, n) + T
    requires IsMultiple(j, n) && j + n <= N
    requires x[j..j + n] == BlockAfter(bf, orig, j, n, Owner(BlockIndex(j, n), T) == t && j < start)
    requires y[start..start + n] == Butterflies(bf, x[start..start + n])
    requires forall k :: 0 <= k < |y| && !(start <= k < start + n) ==> y[k] == x[k]
    ensures y[j..j + n] == BlockAfter(bf, orig, j, n, Owner(BlockIndex(j, n), T) == t && j < next)
  {
    var mine := Owner(BlockIndex(j, n), T) == t;
    if j != start {
      if j < start { MultiplesApart(j, start, n); } else { MultiplesApart(start, j, n); }
      KeptWindow(x, y, start, start + n, j, j + n);
      if mine && start < j < next {
        MultiplesApart(j, next, n);
        OwnerClose(BlockIndex(start, n), BlockIndex(j, n), T);
      }
      assert (mine && j < start) == (mine && j < next);
    } else {
      assert x[j..j + n] == orig[j..j + n];
      assert y[j..j + n] == Butterflies(bf, orig[j..j + n]);
    }
  }

  /** When the thread's next block no longer fits, every block of its that
      fits has been combined. */
  lemma {:induction false} ThreadEnd<E>(bf: (E, E, nat, nat) -> (E, E), x: seq<E>, orig: seq<E>, N: nat, n: nat, T: nat, t: nat, start: nat)
    requires n >= 2 && n % 2 == 0 && N <= |x| && N <= |orig| && T >= 1
    requires start + n > N && ThreadDone(bf, x, orig, N, n, T, t, start)
    ensures ThreadDone(bf, x, orig, N, n, T, t, N)
  {
  }

  /** Running thread t after threads 0..t-1 leaves the blocks of threads
      0..t combined. */
  lemma {:induction false} StageStep<E>(bf: (E, E, nat, nat) -> (E, E), x: seq<E>, y: seq<E>, orig: seq<E>, N: nat, n: nat, T: nat, t: nat)
    requires n >= 2 && n % 2 == 0 && N <= |x| && N <= |y| && N <= |orig| && t < T
    requires StageDone(bf, x, orig, N, n, T, t) && ThreadDone(bf, y, x, N, n, T, t, N)
    ensures StageDone(bf, y, orig, N, n, T, t + 1)
  {
    forall j: nat | IsMultiple(j, n) && j + n <= N
      ensures y[j..j + n] == BlockAfter(bf, orig, j, n, Owner(BlockIndex(j, n), T) < t + 1)
    {
      assert x[j..j + n] == BlockAfter(bf, orig, j, n, Owner(BlockIndex(j, n), T) < t);
    }
  }

  /** Once every thread has run, the buffer holds the stage. */
  lemma {:induction false} StageComplete<E>(bf: (E, E, nat, nat) -> (E, E), x: seq<E>, orig: seq<E>, N: nat, n: nat, T: nat)
    requires n >= 2 && n % 2 == 0 && N <= |x| && N <= |orig| && T >= 1 && IsMultiple(N, n)
    requires StageDone(bf, x, orig, N, n, T, T)
    ensures x[..N] == Stage(bf, orig[..N], n)
  {
    StageDoneBlocks(bf, x, orig, N, n, T);
    StageFromBlocks(bf, orig[..N], x[..N], n);
  }

  /** Once every thread has run, every block of size n below N is combined. */
  lemma {:induction false} StageDoneBlocks<E>(bf: (E, E, nat, nat) -> (E, E), x: seq<E>, orig: seq<E>, N: nat, n: nat, T: nat)
    requires n >= 2 && n % 2 == 0 && N <= |x| && N <= |orig| && T >= 1
    requires StageDone(bf, x, orig, N, n, T, T)
    ensures forall j: nat {:trigger IsMultiple(j, n)} :: IsMultiple(j, n) && j + n <= N ==>
      x[..N][j..j + n] == Butterflies(bf, orig[..N][j..j + n])
  {
    forall j: nat | IsMultiple(j, n) && j + n <= N
      ensures x[..N][j..j + n] == Butterflies(bf, orig[..N][j..j + n])
    {
      StageDoneBlock(bf, x, orig, N, n, T, j);
    }
  }

  /** Once every thread has run, the block of size n at j is combined. */
  lemma {:induction false} StageDoneBlock<E>(bf: (E, E, nat, nat) -> (E, E), x: seq<E>, orig: seq<E>, N: nat, n: nat, T: nat, j: nat)
    requires n >= 2 && n % 2 == 0 && N <= |x| && N <= |orig| && T >= 1
    requires StageDone(bf, x, orig, N, n, T, T) && IsMultiple(j, n) && j + n <= N
    ensures x[..N][j..j + n] == Butterflies(bf, orig[..N][j..j + n])
  {
    var owner := Owner(BlockIndex(j, n), T);
    assert x[j..j + n] == BlockAfter(bf, orig, j, n, owner < T);
    assert x[..N][j..j + n] == x[j..j + n];
    assert orig[..N][j..j + n] == orig[j..j + n];
  }

  // ---------------------------------------------------------------------
  // The imperative code

  /** The state of the combine loop of a block of size n = 2h at start after
      i passes: the pairs (k, k + h) with k < i hold their butterfly of the
      values in orig, every other position of x still holds orig's value. */
  ghost predicate CombinedUpTo<E>(bf: (E, E, nat, nat) -> (E, E), x: seq<E>, orig: seq<E>,
                                  start: nat, h: nat, n: nat, i: nat)
    requires n == h + h && start + n <= |orig| == |x| && i <= h
  {
    && (forall k :: 0 <= k < |x| && !(start <= k < start + n) ==> x[k] == orig[k])
    && (forall p {:trigger x[p]} :: start <= p < start + h ==>
          x[p] == if p < start + i then bf(orig[p], orig[p + h], p - start, n).0 else orig[p])
    && (forall p {:trigger x[p]} :: start + h <= p < start + n ==>
          x[p] == if p < start + h + i then bf(orig[p - h], orig[p], p - h - start, n).1 else orig[p])
  }

  /** One pass of the combine loop: the butterfly of pair i is written to
      positions start + i and start + i + h. */
  lemma {:induction false} CombinePass<E>(bf: (E, E, nat, nat) -> (E, E), x: seq<E>, orig: seq<E>,
                                          start: nat, h: nat, n: nat, i: nat, y: seq<E>)
    requires n == h + h && start + n <= |orig| == |x| && i < h
    requires CombinedUpTo(bf, x, orig, start, h, n, i)
    requires y == x[start + i := bf(x[start + i], x[start + i + h], i, n).0]
                   [start + i + h := bf(x[start + i], x[start + i + h], i, n).1]
    ensures CombinedUpTo(bf, y, orig, start, h, n, i + 1)
  {
    var a, b := start + i, start + i + h;
    assert x[a] == orig[a] && x[b] == orig[b];
    var pair := bf(orig[a], orig[b], i, n);
    forall p | start <= p < start + h
      ensures y[p] == if p < start + i + 1 then bf(orig[p], orig[p + h], p - start, n).0 else orig[p]
    {
      if p == a {
        assert y[p] == pair.0;
      } else {
        assert y[p] == x[p];
      }
    }
    forall p | start + h <= p < start + n
      ensures y[p] == if p < start + h + i + 1 then bf(orig[p - h], orig[p], p - h - start, n).1 else orig[p]
    {
      if p == b {
        assert y[p] == pair.1;
      } else {
        assert y[p] == x[p];
      }
    }
  }

  /** When every pair is done, the block holds the combine step of orig's block. */
  lemma {:induction false} CombineDone<E>(bf: (E, E, nat, nat) -> (E, E), x: seq<E>, orig: seq<E>,
                                          start: nat, h: nat, n: nat)
    requires n == h + h && start + n <= |orig| == |x|
    requires CombinedUpTo(bf, x, orig, start, h, n, h)
    ensures x[start..start + n] == Butterflies(bf, orig[start..start + n])
  {
    var block := orig[start..start + n];
    var want := Butterflies(bf, block);
    forall k | 0 <= k < n
      ensures x[start..start + n][k] == want[k]
    {
      if k < h {
        ButterflyPair(bf, block, n, h, k, k + h);
      } else {
        ButterflyPair(bf, block, n, h, k - h, k);
      }
    }
  }

  /** The combine loop shared by fft, ifft and each block of parallel_fft:
      for i < n/2 it reads out[start+i] and out[start+i+n/2] and overwrites
      them with their butterfly; nothing outside the block changes. */
  method Combine<E>(out: array<E>, start: nat, n: nat, bf: (E, E, nat, nat) -> (E, E))
    requires n % 2 == 0 && start + n <= out.Length
    modifies out
    ensures out[start..start + n] == Butterflies(bf, old(out[start..start + n]))
    ensures forall k :: 0 <= k < out.Length && !(start <= k < start + n) ==> out[k] == old(out[k])
  {
    var h := n / 2;
    ghost var orig := out[..];
    for i := 0 to h
      invariant CombinedUpTo(bf, out[..], orig, start, h, n, i)
    {
      var a, b := start + i, start + i + h;
      var r1 := out[a];
      var r2 := out[b];
      ghost var before := out[..];
      var (lo, hi) := bf(r1, r2, i, n);
      out[a] := lo;
      out[b] := hi;
      CombinePass(bf, before, orig, start, h, n, i, out[..]);
    }
    CombineDone(bf, out[..], orig, start, h, n);
    assert orig[start..start + n] == old(out[start..start + n]);
  }

  /** fft (and ifft) on in[inStart..inStart+n) into out[outStart..outStart+n):
      copy for n == 1, otherwise transform both halves and combine. The result
      is the recursive transform, and nothing outside out's block is written. */
  method RecursiveFft<E>(inp: seq<E>, inStart: nat, out: array<E>, outStart: nat, n: nat,
                         bf: (E, E, nat, nat) -> (E, E))
    requires IsPow2(n) && inStart + n <= |inp| && outStart + n <= out.Length
    modifies out
    ensures out[outStart..outStart + n] == FftAt(bf, inp, inStart, n)
    ensures forall k :: 0 <= k < out.Length && !(outStart <= k < outStart + n) ==> out[k] == old(out[k])
    decreases n
  {
    if n == 1 {
      out[outStart] := inp[inStart];
      return;
    }
    var h := n / 2;
    var inMid, outMid := inStart + h, outStart + h;
    HalfOfPow2(n);
    ghost var low, high := FftAt(bf, inp, inStart, h), FftAt(bf, inp, inMid, h);
    FftAtDouble(bf, inp, inStart, inMid, h, n);
    RecursiveFft(inp, inStart, out, outStart, h, bf);
    ghost var mid := out[..];
    assert mid[outStart..outStart + h] == low;
    SameWindow(mid, outStart, outStart + h, outMid);
    RecursiveFft(inp, inMid, out, outMid, h, bf);
    ghost var pre := out[..];
    assert pre[outMid..outMid + h] == high;
    SameWindow(pre, outMid, outMid + h, outStart + n);
    KeptWindow(mid, pre, outMid, outMid + h, outStart, outMid);
    CombineHalves(out, outStart, outMid, n, bf, low, high);
  }

  /** The combine step of fft once both halves of the block hold low and
      high. */
  method CombineHalves<E>(out: array<E>, start: nat, mid: nat, n: nat, bf: (E, E, nat, nat) -> (E, E), ghost low: seq<E>, ghost high: seq<E>)
    requires n % 2 == 0 && start <= mid <= start + n <= out.Length
    requires out[start..mid] == low && out[mid..start + n] == high
    modifies out
    ensures out[start..start + n] == Butterflies(bf, low + high)
    ensures forall k :: 0 <= k < out.Length && !(start <= k < start + n) ==> out[k] == old(out[k])
  {
    JoinWindows(out[..], start, mid, start + n, low, high);
    Combine(out, start, n, bf);
  }

  /** The scatter phase of parallel_fft, threads run one after another: thread
      t copies the positions t, t+T, t+2T, ... below N. Together they copy
      every position below N. */
  method Scatter<E>(inp: seq<E>, out: array<E>, N: nat, T: nat)
    requires N <= |inp| && N <= out.Length && T >= 1
    modifies out
    ensures out[..N] == inp[..N]
    ensures forall k :: N <= k < out.Length ==> out[k] == old(out[k])
  {
    for t := 0 to T
      invariant forall k :: 0 <= k < N && k % T < t ==> out[k] == inp[k]
      invariant forall k :: N <= k < out.Length ==> out[k] == old(out[k])
    {
      var i := t;
      DivModUnique(t, T, 0, t);
      while i < N
        invariant i % T == t && t <= i
        invariant forall k :: 0 <= k < N && (k % T < t || (k % T == t && k < i)) ==> out[k] == inp[k]
        invariant forall k :: N <= k < out.Length ==> out[k] == old(out[k])
      {
        out[i] := inp[i];
        forall k | 0 <= k < N && k % T == t && i <= k < i + T
          ensures k == i
        {
          SameResidueClose(i, k, T);
        }
        ModAddMultiple(i, 1, T);
        i := i + T;
      }
    }
  }

  /** Thread t's share of the stage of block size n: the blocks starting at
      t*n, t*n + T*n, t*n + 2*T*n, ... that fit below N. Afterwards exactly
      the blocks whose index is congruent to t modulo T have been combined,
      and the positions from the end of the last whole block on, including
      a partial block below N, are unchanged. */
  method ThreadStage<E>(out: array<E>, N: nat, n: nat, T: nat, t: nat, bf: (E, E, nat, nat) -> (E, E))
    requires n >= 2 && n % 2 == 0 && N <= out.Length && t < T
    modifies out
    ensures ThreadDone(bf, out[..], old(out[..]), N, n, T, t, N)
    ensures forall k :: 0 <= k < out.Length && N - N % n <= k ==> out[k] == old(out[k])
    ensures forall k :: N <= k < out.Length ==> out[k] == old(out[k])
  {
    ThreadStart(bf, out[..], N, n, T, t);
    MulMonotone(T, 1, n);
    var start := t * n;
    while start + n <= N
      invariant IsMultiple(start, n) && Owner(BlockIndex(start, n), T) == t
      invariant ThreadDone(bf, out[..], old(out[..]), N, n, T, t, start)
      invariant forall k :: 0 <= k < out.Length && N - N % n <= k ==> out[k] == old(out[k])
      decreases N - start
    {
      var next := start + T * n;
      BlockBelowFloor(start, n, N);
      CombineOwned(out, old(out[..]), N, n, T, t, start, next, bf);
      start := next;
    }
    ThreadEnd(bf, out[..], old(out[..]), N, n, T, t, start);
  }

  /** One pass of the block loop in parallel_fft: thread t combines its block
      at start, the next of its blocks in order. */
  method CombineOwned<E>(out: array<E>, ghost orig: seq<E>, N: nat, n: nat, T: nat, t: nat, start: nat, next: nat, bf: (E, E, nat, nat) -> (E, E))
    requires n >= 2 && n % 2 == 0 && N <= out.Length && N <= |orig| && T >= 1
    requires IsMultiple(start, n) && Owner(BlockIndex(start, n), T) == t && start + n <= N
    requires ThreadDone(bf, out[..], orig, N, n, T, t, start)
    requires next == start + T * n
    modifies out
    ensures next >= start + n && IsMultiple(next, n) && Owner(BlockIndex(next, n), T) == t
    ensures ThreadDone(bf, out[..], orig, N, n, T, t, next)
    ensures forall k :: 0 <= k < out.Length && !(start <= k < start + n) ==> out[k] == old(out[k])
  {
    ghost var before := out[..];
    Combine(out, start, n, bf);
    assert out[..][start..start + n] == out[start..start + n];
    assert before[start..start + n] == old(out[start..start + n]);
    MulMonotone(T, 1, n);
    ThreadStep(bf, before, out[..], orig, N, n, T, t, start, next);
  }

  /** One stage of parallel_fft between two barriers, the threads run one
      after another: the buffer below N becomes the stage of block size n. */
  method RunStage<E>(out: array<E>, N: nat, n: nat, T: nat, bf: (E, E, nat, nat) -> (E, E))
    requires n >= 2 && n % 2 == 0 && IsMultiple(N, n) && N <= out.Length && T >= 1
    modifies out
    ensures out[..N] == Stage(bf, old(out[..N]), n)
    ensures forall k :: N <= k < out.Length ==> out[k] == old(out[k])
  {
    ghost var orig := out[..];
    for t := 0 to T
      invariant StageDone(bf, out[..], orig, N, n, T, t)
      invariant forall k :: N <= k < out.Length ==> out[k] == old(out[k])
    {
      ghost var before := out[..];
      ThreadStage(out, N, n, T, t, bf);
      StageStep(bf, before, out[..], orig, N, n, T, t);
    }
    StageComplete(bf, out[..], orig, N, n, T);
  }

  /** The scattered input, seen as `N` transformed blocks of size 1. */
  method ScatterBlocks<E>(inp: seq<E>, out: array<E>, N: nat, T: nat, ghost bf: (E, E, nat, nat) -> (E, E))
    requires N <= |inp| && N <= out.Length && T >= 1
    modifies out
    ensures IsMultiple(N, 1) && out[..N] == Blocks(bf, inp, N, 1, 0)
    ensures forall k :: N <= k < out.Length ==> out[k] == old(out[k])
  {
    Scatter(inp, out, N, T);
    BlocksUnit(bf, inp, N, 0);
    assert inp[0..N] == inp[..N];
  }

  /** One pass of the outer loop: every block of size `half` has been
      transformed, and a stage over all threads combines them in pairs. */
  method DoubleStage<E>(out: array<E>, ghost inp: seq<E>, N: nat, ghost half: nat, n: nat, T: nat,
                        bf: (E, E, nat, nat) -> (E, E))
    requires IsPow2(half) && n == half + half && N <= |inp| && N <= out.Length && T >= 1
    requires IsMultiple(N, n) && IsMultiple(N, half) && out[..N] == Blocks(bf, inp, N, half, 0)
    modifies out
    ensures IsPow2(n) && out[..N] == Blocks(bf, inp, N, n, 0)
    ensures forall k :: N <= k < out.Length ==> out[k] == old(out[k])
  {
    BlocksDoubling(bf, inp, N, half, n, 0);
    RunStage(out, N, n, T, bf);
  }

  /** parallel_fft with the threads run one after another: scatter, then the
      stages of block size 2, 4, ..., N. The result is the recursive
      transform, the same as fft on the same input. */
  method ParallelFft<E>(inp: seq<E>, out: array<E>, N: nat, T: nat, bf: (E, E, nat, nat) -> (E, E))
    requires IsPow2(N) && N <= |inp| && N <= out.Length && T >= 1
    modifies out
    ensures out[..N] == FftAt(bf, inp, 0, N)
    ensures forall k :: N <= k < out.Length ==> out[k] == old(out[k])
  {
    ScatterBlocks(inp, out, N, T, bf);
    var n: nat := 2;
    ghost var half: nat := 1;
    while n <= N
      invariant IsPow2(half) && n == half + half && half <= N
      invariant IsMultiple(N, half) && out[..N] == Blocks(bf, inp, N, half, 0)
      invariant forall k :: N <= k < out.Length ==> out[k] == old(out[k])
      decreases N + 1 - n
    {
      DoublePow2(half);
      Pow2Divides(n, N);
      DoubleStage(out, inp, N, half, n, T, bf);
      half, n := n, n + n;
    }
    if half < N {
      Pow2Below(half, N);
    }
    assert half == N;
    BlocksWhole(bf, inp, N);
  }
}
