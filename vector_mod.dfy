/** lab-4: the remainder of a multi-word number V[0..N) (word W bits wide,
    least significant word first) modulo a one-word divisor. Each of T threads
    reduces a contiguous range of words by Horner's scheme; the partial
    results are then combined pairwise in a binary tree, each pair shifted by
    a power of 2^W. The threads and the barrier are sequentialised: first
    every thread's Horner loop, then each reduction stage thread by thread. */
module VectorMod {
  import opened Arith

  // ---------------------------------------------------------------------
  // Word arithmetic

  /** mul_mod, add_mod and times_word of mod_ops.h (a header that is not part
      of this model), with the meaning their names give them: products and
      sums reduced modulo m, and a word shifted up by W bits modulo m. */
  function MulMod(a: nat, b: nat, m: nat): nat
    requires m >= 1
  {
    (a * b) % m
  }

  function AddMod(a: nat, b: nat, m: nat): nat
    requires m >= 1
  {
    (a + b) % m
  }

  function TimesWord(a: nat, m: nat, W: nat): nat
    requires m >= 1
  {
    (a * Pow(2, W)) % m
  }

  /** One pass of the square-and-multiply loop keeps acc * b^p modulo m. */
  lemma {:induction false} SquareStep(acc: nat, b: nat, p: nat, m: nat, acc': nat)
    requires m >= 1 && p > 0
    requires acc' == if p % 2 != 0 then MulMod(acc, b, m) else acc
    ensures (acc' * Pow(MulMod(b, b, m), p / 2)) % m == (acc * Pow(b, p)) % m
  {
    var q := p / 2;
    var x := Pow(b * b, q);
    PowModBase(b * b, q, m);
    PowSquare(b, q);
    assert Pow(MulMod(b, b, m), q) % m == x % m;
    ModMulRight(acc', Pow(MulMod(b, b, m), q), m);
    ModMulRight(acc', x, m);
    assert (acc' * Pow(MulMod(b, b, m), q)) % m == (acc' * x) % m;
    if p % 2 != 0 {
      assert p == 2 * q + 1;
      PowAdd(b, 2 * q, 1);
      assert Pow(b, p) == x * b;
      ModMulLeft(acc * b, x, m);
      assert (acc' * x) % m == (acc * b * x) % m;
      assert acc * b * x == acc * Pow(b, p);
    } else {
      assert p == 2 * q;
    }
  }

  /** The invariant of the square-and-multiply loop: result * b^p has the
      residue of base^power; the result stays the literal 1 while power is
      0 (the loop then never runs), and is reduced once the loop has consumed
      a positive power. */
  ghost predicate PowLoopInvariant(base: nat, power: nat, m: nat, result: nat, b: nat, p: nat)
    requires m >= 1
  {
    && (result * Pow(b, p)) % m == Pow(base, power) % m
    && (power == 0 ==> result == 1 && p == 0)
    && (power > 0 && p == 0 ==> result < m)
  }

  /** One pass of the loop of pow_mod keeps its invariant. */
  lemma {:induction false} PowLoopPass(base: nat, power: nat, m: nat, result: nat, b: nat, p: nat, result': nat)
    requires m >= 1 && p > 0 && PowLoopInvariant(base, power, m, result, b, p)
    requires result' == if p % 2 != 0 then MulMod(result, b, m) else result
    ensures PowLoopInvariant(base, power, m, result', MulMod(b, b, m), p / 2)
  {
    SquareStep(result, b, p, m, result');
    if p / 2 == 0 {
      assert p == 1;
    }
  }

  /** When the loop stops, the invariant gives the result of pow_mod. */
  lemma {:induction false} PowLoopExit(base: nat, power: nat, m: nat, result: nat, b: nat)
    requires m >= 1 && PowLoopInvariant(base, power, m, result, b, 0)
    ensures power == 0 ==> result == 1
    ensures power > 0 ==> result == Pow(base, power) % m
    ensures result % m == Pow(base, power) % m
  {
    assert Pow(b, 0) == 1;
    assert result * Pow(b, 0) == result;
    if power > 0 {
      DivModUnique(result, m, 0, result);
    }
  }

  /** pow_mod: base^power modulo m by square-and-multiply. A zero power gives
      the literal 1, which is not reduced (so 1 even when m == 1), and skips
      the loop, so m is never divided by; a positive power needs m >= 1. */
  method PowMod(base: nat, power: nat, m: nat) returns (result: nat)
    requires power > 0 ==> m >= 1
    ensures power == 0 ==> result == 1
    ensures power > 0 ==> result == Pow(base, power) % m
    ensures m >= 1 ==> result % m == Pow(base, power) % m
  {
    result := 1;
    var b, p := base, power;
    assert result * Pow(b, p) == Pow(base, power);
    while p > 0
      invariant power == 0 ==> result == 1 && p == 0
      invariant m >= 1 ==> PowLoopInvariant(base, power, m, result, b, p)
      decreases p
    {
      var acc := result;
      if p % 2 != 0 {
        result := MulMod(result, b, m);
      }
      PowLoopPass(base, power, m, acc, b, p, result);
      p := p / 2;
      b := MulMod(b, b, m);
    }
    if m >= 1 {
      PowLoopExit(base, power, m, result, b);
    }
  }

  /** -m on a W-bit unsigned word is 2^W - m, which has the residue of 2^W. */
  lemma {:induction false} NegatedModulus(m: nat, W: nat)
    requires 1 <= m < Pow(2, W)
    ensures ((Pow(2, W) - m) % Pow(2, W)) % m == Pow(2, W) % m
  {
    var P := Pow(2, W);
    DivModUnique(P - m, P, 0, P - m);
    ModAddMultiple(P - m, 1, m);
  }

  /** word_pow_mod: (2^W)^power modulo m, starting from (-m) % m, the residue
      of 2^W computed without leaving the word. */
  method WordPowMod(power: nat, m: nat, W: nat) returns (r: nat)
    requires 1 <= m < Pow(2, W)
    ensures power == 0 ==> r == 1
    ensures power > 0 ==> r == Pow(2, W * power) % m
    ensures r % m == Pow(2, W * power) % m
  {
    var negated := (Pow(2, W) - m) % Pow(2, W);
    NegatedModulus(m, W);
    r := PowMod(negated % m, power, m);
    PowModBase(Pow(2, W), power, m);
    PowMul(2, W, power);
  }

  // ---------------------------------------------------------------------
  // The split of the words among the threads

  datatype Range = Range(b: nat, e: nat)

  function Min(a: nat, b: nat): nat
  {
    if a < b then a else b
  }

  /** vector_thread_range: the words [b, e) of thread t when n words are
      split among T threads. The first n % T threads take n / T + 1 words,
      the others n / T, and each range starts where the previous one ends. */
  function ThreadRange(n: nat, T: nat, t: nat): (r: Range)
    requires T >= 1
    ensures r.e - r.b == if t < n % T then n / T + 1 else n / T
  {
    DivModNat(n, T);
    var b, s := n % T, n / T;
    if t < b then
      var s' := s + 1;
      Range(s' * t, s' * t + s')
    else
      Range(b + s * t, b + s * t + s)
  }

  /** Thread t starts after t ranges of n / T words and one extra word for
      each earlier thread below n % T. */
  lemma {:induction false} RangeStart(n: nat, T: nat, t: nat)
    requires T >= 1
    ensures ThreadRange(n, T, t).b == t * (n / T) + Min(t, n % T)
  {
    DivModNat(n, T);
    MulSucc(n / T, t);
  }

  lemma {:induction false} MulSucc(a: nat, t: nat)
    ensures (a + 1) * t == t * a + t
  {
  }

  /** Where the words of thread t start; N for t == T and beyond. */
  function Boundary(N: nat, T: nat, t: nat): (r: nat)
    requires T >= 1
    ensures r <= N
    ensures t == 0 ==> r == 0
  {
    if t < T then
      RangeWithin(N, T, t);
      ThreadRange(N, T, t).b
    else N
  }

  /** Every range of a thread t < T lies within [0, n). */
  lemma {:induction false} RangeWithin(n: nat, T: nat, t: nat)
    requires T >= 1 && t < T
    ensures ThreadRange(n, T, t).b <= ThreadRange(n, T, t).e <= n
  {
    DivModNat(n, T);
    var s, q := n / T, n % T;
    RangeStart(n, T, t);
    MulMonotone(T - 1, t, s);
    if t < q {
      assert (T - 1) * s + q == n - s;
    }
  }

  /** The first thread starts at word 0 and the last one ends at word n. */
  lemma {:induction false} RangeEnds(n: nat, T: nat)
    requires T >= 1
    ensures ThreadRange(n, T, 0).b == 0 && ThreadRange(n, T, T - 1).e == n
  {
    DivModNat(n, T);
    RangeStart(n, T, T - 1);
  }

  /** Each range ends where the next one starts. */
  lemma {:induction false} RangesAdjacent(n: nat, T: nat, t: nat)
    requires T >= 1
    ensures ThreadRange(n, T, t).e == ThreadRange(n, T, t + 1).b
  {
    DivModNat(n, T);
    var s, q := n / T, n % T;
    RangeStart(n, T, t);
    RangeStart(n, T, t + 1);
    var r, r' := ThreadRange(n, T, t), ThreadRange(n, T, t + 1);
    NextStart(t, s, q, r.b, r.e, r'.b);
  }

  lemma {:induction false} NextStart(t: nat, s: nat, q: nat, b: nat, e: nat, b': nat)
    requires b == t * s + Min(t, q) && e - b == (if t < q then s + 1 else s)
    requires b' == (t + 1) * s + Min(t + 1, q)
    ensures e == b'
  {
    MulSucc(t, s);
  }

  /** Thread sizes differ by at most one word. */
  lemma {:induction false} RangesBalanced(n: nat, T: nat, t1: nat, t2: nat)
    requires T >= 1
    ensures var r1, r2 := ThreadRange(n, T, t1), ThreadRange(n, T, t2);
      r1.e - r1.b <= r2.e - r2.b + 1
  {
  }

  /** Later threads start no earlier. */
  lemma {:induction false} StartsOrdered(n: nat, T: nat, t1: nat, t2: nat)
    requires T >= 1 && t1 <= t2
    ensures ThreadRange(n, T, t1).b <= ThreadRange(n, T, t2).b
  {
    DivModNat(n, T);
    RangeStart(n, T, t1);
    RangeStart(n, T, t2);
    StartsGrow(t1, t2, n / T, n % T, ThreadRange(n, T, t1).b, ThreadRange(n, T, t2).b);
  }

  lemma {:induction false} StartsGrow(t1: nat, t2: nat, s: nat, q: nat, b1: nat, b2: nat)
    requires t1 <= t2 && b1 == t1 * s + Min(t1, q) && b2 == t2 * s + Min(t2, q)
    ensures b1 <= b2
  {
    MulMonotone(t2, t1, s);
  }

  /** The ranges of two different threads never overlap. */
  lemma {:induction false} RangesOrdered(n: nat, T: nat, t1: nat, t2: nat)
    requires T >= 1 && t1 < t2
    ensures ThreadRange(n, T, t1).e <= ThreadRange(n, T, t2).b
  {
    RangesAdjacent(n, T, t1);
    StartsOrdered(n, T, t1 + 1, t2);
  }

  /** Every word j < n belongs to the range of some thread t < T. */
  lemma {:induction false} RangeOf(n: nat, T: nat, j: nat) returns (t: nat)
    requires T >= 1 && j < n
    ensures t < T && ThreadRange(n, T, t).b <= j < ThreadRange(n, T, t).e
  {
    RangeEnds(n, T);
    t := 0;
    while ThreadRange(n, T, t).e <= j
      invariant t < T && ThreadRange(n, T, t).b <= j
      decreases T - t
    {
      if t == T - 1 {
        assert false;
      }
      RangesAdjacent(n, T, t);
      t := t + 1;
    }
  }

  lemma {:induction false} BoundaryMonotone(N: nat, T: nat, lo: nat, hi: nat)
    requires T >= 1 && lo <= hi
    ensures Boundary(N, T, lo) <= Boundary(N, T, hi)
  {
    if lo < hi && hi < T {
      RangesOrdered(N, T, lo, hi);
      RangeWithin(N, T, lo);
    }
  }

  /** The end of thread t's range is the start of thread t + 1, or N for the last thread. */
  lemma {:induction false} RangeEndIsBoundary(N: nat, T: nat, t: nat)
    requires T >= 1 && t < T
    ensures ThreadRange(N, T, t).b == Boundary(N, T, t)
    ensures ThreadRange(N, T, t).e == Boundary(N, T, t + 1)
  {
    RangesAdjacent(N, T, t);
    RangeEnds(N, T);
  }

  // ---------------------------------------------------------------------
  // The number and its residue

  /** The number whose base-2^W digits are s, least significant first. */
  function Number(s: seq<nat>, W: nat): nat
  {
    if |s| == 0 then 0 else s[0] + Pow(2, W) * Number(s[1..], W)
  }

  /** The same number as a sum of weighted words, summed from the top word down. */
  function WeightedSum(s: seq<nat>, W: nat): nat
  {
    if |s| == 0 then 0 else WeightedSum(s[..|s| - 1], W) + s[|s| - 1] * Pow(2, W * (|s| - 1))
  }

  /** Splitting the words at a: the high part is shifted by a words. */
  lemma {:induction false} NumberSplit(s: seq<nat>, a: nat, W: nat)
    requires a <= |s|
    ensures Number(s, W) == Number(s[..a], W) + Pow(2, W * a) * Number(s[a..], W)
    decreases a
  {
    if a > 0 {
      var rest, low := s[1..], s[..a];
      var B, P := Pow(2, W), Pow(2, W * (a - 1));
      var x, y := Number(low[1..], W), Number(s[a..], W);
      NumberSplit(rest, a - 1, W);
      assert rest[..a - 1] == low[1..];
      assert rest[a - 1..] == s[a..];
      assert Number(rest, W) == x + P * y;
      assert Number(s, W) == s[0] + B * Number(rest, W);
      assert low[0] == s[0];
      assert Number(low, W) == s[0] + B * x;
      ShiftPow(W, a);
      ShiftOver(Number(s, W), s[0], B, x, P, y, Number(low, W), Pow(2, W * a));
    } else {
      assert s[..0] == [] && s[0..] == s;
    }
  }

  /** Shifting by one word and then by a - 1 words is shifting by a words. */
  lemma {:induction false} ShiftPow(W: nat, a: nat)
    requires a > 0
    ensures Pow(2, W * a) == Pow(2, W) * Pow(2, W * (a - 1))
  {
    var k := W * (a - 1);
    MulPred(W, a, k);
    PowAdd(2, W, k);
  }

  lemma {:induction false} MulPred(W: nat, a: nat, k: nat)
    requires a > 0 && k == W * (a - 1)
    ensures W * a == W + k
  {
  }

  lemma {:induction false} ShiftOver(whole: nat, s0: nat, B: nat, x: nat, P: nat, y: nat, low: nat, shift: nat)
    requires whole == s0 + B * (x + P * y) && low == s0 + B * x && shift == B * P
    ensures whole == low + shift * y
  {
  }

  /** Horner's form and the weighted sum are the same number. */
  lemma {:induction false} NumberIsWeightedSum(s: seq<nat>, W: nat)
    ensures Number(s, W) == WeightedSum(s, W)
    decreases |s|
  {
    if |s| > 0 {
      var k := |s| - 1;
      NumberLast(s, W);
      NumberIsWeightedSum(s[..k], W);
    }
  }

  /** The top word of a non-empty number, shifted by the words below it. */
  lemma {:induction false} NumberLast(s: seq<nat>, W: nat)
    requires |s| > 0
    ensures Number(s, W) == Number(s[..|s| - 1], W) + s[|s| - 1] * Pow(2, W * (|s| - 1))
  {
    var k := |s| - 1;
    NumberSplit(s, k, W);
    var top := s[k..];
    assert top == [s[k]] && top[1..] == [];
    assert Number(top, W) == s[k] + Pow(2, W) * Number(top[1..], W);
    assert Number(top, W) == s[k];
  }

  /** Words [b, c) are words [b, a) followed by words [a, c) shifted by a - b words. */
  lemma {:induction false} NumberJoin(V: seq<nat>, b: nat, a: nat, c: nat, W: nat)
    requires b <= a <= c <= |V|
    ensures Number(V[b..c], W) == Number(V[b..a], W) + Pow(2, W * (a - b)) * Number(V[a..c], W)
  {
    NumberSplit(V[b..c], a - b, W);
    assert V[b..c][..a - b] == V[b..a];
    assert V[b..c][a - b..] == V[a..c];
  }

  // ---------------------------------------------------------------------
  // One thread's Horner loop

  lemma {:induction false} HornerStep(V: seq<nat>, i: nat, e: nat, sum: nat, m: nat, W: nat)
    requires i < e <= |V| && m >= 1 && sum == Number(V[i + 1..e], W) % m
    ensures AddMod(TimesWord(sum, m, W), V[i], m) == Number(V[i..e], W) % m
  {
    var rest := Number(V[i + 1..e], W);
    assert V[i..e][1..] == V[i + 1..e];
    assert Number(V[i..e], W) == V[i] + Pow(2, W) * rest;
    ModMulLeft(rest, Pow(2, W), m);
    ModAddLeft(rest * Pow(2, W), V[i], m);
  }

  /** The Horner loop of a thread over its words [b, e): from the top word
      down, shift the sum by one word and add the next word, modulo m. An
      empty range gives 0. */
  method Horner(V: seq<nat>, b: nat, e: nat, m: nat, W: nat) returns (sum: nat)
    requires b <= e <= |V| && m >= 1
    ensures sum == Number(V[b..e], W) % m
  {
    sum := 0;
    var i := e;
    while b < i
      invariant b <= i <= e
      invariant sum == Number(V[i..e], W) % m
      decreases i
    {
      i := i - 1;
      HornerStep(V, i, e, sum, m, W);
      sum := AddMod(TimesWord(sum, m, W), V[i], m);
    }
  }

  // ---------------------------------------------------------------------
  // The reduction tree

  /** The residue of the words of threads lo..hi-1. */
  function Segment(V: seq<nat>, N: nat, T: nat, lo: nat, hi: nat, m: nat, W: nat): nat
    requires N <= |V| && T >= 1 && m >= 1 && lo <= hi
  {
    BoundaryMonotone(N, T, lo, hi);
    Number(V[Boundary(N, T, lo)..Boundary(N, T, hi)], W) % m
  }

  /** In a stage of stride i, a writer t (t % 2i == 0) reads thread t + i,
      which is not a writer of the same stage but held a result of the
      previous stage (stride i). */
  lemma {:induction false} StageDisjoint(t: nat, i: nat, ii: nat)
    requires i >= 1 && ii == i + i && t % ii == 0
    ensures t % i == 0 && (t + i) % i == 0 && (t + i) % ii != 0
  {
    var k := t / ii;
    assert t == k * ii;
    assert t == (2 * k) * i + 0;
    DivModUnique(t, i, 2 * k, 0);
    assert t + i == (2 * k + 1) * i + 0;
    DivModUnique(t + i, i, 2 * k + 1, 0);
    assert t + i == k * ii + i;
    DivModUnique(t + i, ii, k, i);
  }

  /** Combining the results of threads t and t + i gives the residue of both halves. */
  lemma {:induction false} CombineStep(V: seq<nat>, N: nat, T: nat, t: nat, mid: nat, hi: nat, m: nat, W: nat,
                    x: nat, y: nat, gap: nat, w: nat)
    requires N <= |V| && T >= 1 && m >= 1 && t <= mid <= hi
    requires x == Segment(V, N, T, t, mid, m, W) && y == Segment(V, N, T, mid, hi, m, W)
    requires Boundary(N, T, t) + gap == Boundary(N, T, mid) && w % m == Pow(2, W * gap) % m
    ensures AddMod(x, MulMod(y, w, m), m) == Segment(V, N, T, t, hi, m, W)
  {
    BoundaryMonotone(N, T, t, mid);
    BoundaryMonotone(N, T, mid, hi);
    var b, a, c := Boundary(N, T, t), Boundary(N, T, mid), Boundary(N, T, hi);
    var lo, up := Number(V[b..a], W), Number(V[a..c], W);
    var shift := Pow(2, W * gap);
    assert gap == a - b;
    NumberJoin(V, b, a, c, W);
    assert x == lo % m && y == up % m;
    calc {
      (y * w) % m;
      { ModMulLeft(up, w, m); }
      (up * w) % m;
      { ModMulRight(up, w, m); }
      (up * (shift % m)) % m;
      { ModMulRight(up, shift, m); }
      (up * shift) % m;
    }
    calc {
      AddMod(x, MulMod(y, w, m), m);
      (lo % m + (up * shift) % m) % m;
      { ModAddLeft(lo, (up * shift) % m, m); }
      (lo + (up * shift) % m) % m;
      { ModAddRight(lo, up * shift, m); }
      (lo + up * shift) % m;
      { assert Number(V[b..c], W) == lo + shift * up; }
      Segment(V, N, T, t, hi, m, W);
    }
  }

  /** The one writer t of a stage with stride i: combine with thread t + i. */
  method CombineNeighbor(pr: array<nat>, V: seq<nat>, N: nat, T: nat, m: nat, W: nat,
                         t: nat, i: nat, ii: nat)
    requires pr.Length == T >= 1 && N <= |V| && 1 <= m < Pow(2, W)
    requires i >= 1 && ii == i + i && t % ii == 0 && t + i < T
    requires pr[t] == Segment(V, N, T, t, t + i, m, W)
    requires pr[t + i] == Segment(V, N, T, t + i, t + ii, m, W)
    modifies pr
    ensures pr[t] == Segment(V, N, T, t, t + ii, m, W)
    ensures forall u :: 0 <= u < T && u != t ==> pr[u] == old(pr[u])
  {
    var neighbor := ThreadRange(N, T, t + i);
    var b := ThreadRange(N, T, t).b;
    RangeEndIsBoundary(N, T, t);
    RangeEndIsBoundary(N, T, t + i);
    BoundaryMonotone(N, T, t, t + i);
    var gap := neighbor.b - b;
    var w := WordPowMod(gap, m, W);
    CombineStep(V, N, T, t, t + i, t + ii, m, W, pr[t], pr[t + i], gap, w);
    pr[t] := AddMod(pr[t], MulMod(pr[t + i], w, m), m);
  }

  /** One stage of the reduction with stride i, thread by thread: every t
      with t % 2i == 0 and t + i < T adds its neighbour's result shifted by
      the words between them. Afterwards each such t holds the residue of
      threads t..t+2i-1 (those below T). */
  method ReduceStage(pr: array<nat>, V: seq<nat>, N: nat, T: nat, m: nat, W: nat, i: nat, ii: nat)
    requires pr.Length == T >= 1 && N <= |V| && 1 <= m < Pow(2, W) && i >= 1 && ii == i + i
    requires forall t :: 0 <= t < T && t % i == 0 ==> pr[t] == Segment(V, N, T, t, t + i, m, W)
    modifies pr
    ensures forall t :: 0 <= t < T && t % ii == 0 ==> pr[t] == Segment(V, N, T, t, t + ii, m, W)
    ensures forall t :: 0 <= t < T && t % ii != 0 ==> pr[t] == old(pr[t])
  {
    for t := 0 to T
      invariant forall u :: 0 <= u < t && u % ii == 0 ==> pr[u] == Segment(V, N, T, u, u + ii, m, W)
      invariant forall u :: 0 <= u < T && !(u < t && u % ii == 0) ==> pr[u] == old(pr[u])
    {
      if t % ii == 0 {
        StageDisjoint(t, i, ii);
        if t + i < T {
          CombineNeighbor(pr, V, N, T, m, W, t, i, ii);
        } else {
          assert Boundary(N, T, t + i) == N == Boundary(N, T, t + ii);
        }
      }
    }
  }

  /** vector_mod: every thread reduces its range, then the stages with
      stride 1, 2, 4, ... combine the partial results; thread 0 ends up with
      the residue of the whole number. */
  method VectorMod(V: seq<nat>, N: nat, m: nat, T: nat, W: nat) returns (r: nat)
    requires N <= |V| && 1 <= m < Pow(2, W) && T >= 1
    ensures r == Number(V[..N], W) % m
  {
    var pr := new nat[T];
    for t := 0 to T
      invariant forall u :: 0 <= u < t ==> pr[u] == Segment(V, N, T, u, u + 1, m, W)
    {
      var range := ThreadRange(N, T, t);
      RangeEndIsBoundary(N, T, t);
      var sum := Horner(V, range.b, range.e, m, W);
      pr[t] := sum;
    }
    var i, ii := 1, 2;
    while i < T
      invariant i >= 1 && ii == i + i
      invariant forall t :: 0 <= t < T && t % i == 0 ==> pr[t] == Segment(V, N, T, t, t + i, m, W)
      decreases T - i
    {
      ReduceStage(pr, V, N, T, m, W, i, ii);
      i, ii := ii, ii + ii;
    }
    assert V[0..N] == V[..N];
    r := pr[0];
  }
}
