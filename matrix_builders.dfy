/** lab-3: the test matrices of the matrix-multiplication benchmark. An n x n
    matrix is a vector of n * n doubles holding column block c at positions
    c * n .. c * n + n - 1; a permutation matrix has a single 1 in every
    column block, at the offset the random permutation gives that column.
    rand() is replaced by a parameter: rand(i) is the value returned by the
    i-th call. */
module MatrixBuilders {
  import opened Arith

  // ---------------------------------------------------------------------
  // The random permutation

  /** The numbers 0, 1, ..., n - 1 in order. */
  function Iota(n: nat): (r: seq<nat>)
    ensures |r| == n && forall k :: 0 <= k < n ==> r[k] == k
  {
    if n == 0 then [] else Iota(n - 1) + [n - 1]
  }

  /** std::swap of positions a and b. */
  function Swap(s: seq<nat>, a: nat, b: nat): (r: seq<nat>)
    requires a < |s| && b < |s|
    ensures |r| == |s| && r[a] == s[b] && r[b] == s[a]
    ensures forall k :: 0 <= k < |s| && k != a && k != b ==> r[k] == s[k]
  {
    s[a := s[b]][b := s[a]]
  }

  /** The permutation after n passes of the inside-out shuffle: pass i puts
      i at the end and swaps it with the entry at rand(i) % (i + 1), which
      lies in [0, i]. */
  function Shuffle(n: nat, rand: nat -> nat): (r: seq<nat>)
    ensures |r| == n
  {
    if n == 0 then []
    else
      var i := n - 1;
      Swap(Shuffle(i, rand) + [i], i, rand(i) % (i + 1))
  }

  lemma {:induction false} SwapMultiset(s: seq<nat>, a: nat, b: nat)
    requires a < |s| && b < |s|
    ensures multiset(Swap(s, a, b)) == multiset(s)
  {
    var t := s[a := s[b]];
    assert multiset(t) == multiset(s) - multiset{s[a]} + multiset{s[b]};
    assert multiset(t[b := s[a]]) == multiset(t) - multiset{t[b]} + multiset{s[a]};
  }

  /** Whatever the random choices, the shuffle holds each of 0..n-1 exactly once. */
  lemma {:induction false} ShuffleIsPermutation(n: nat, rand: nat -> nat)
    ensures multiset(Shuffle(n, rand)) == multiset(Iota(n))
  {
    if n > 0 {
      ShuffleIsPermutation(n - 1, rand);
      ShufflePass(n, rand);
      IotaPass(n);
    }
  }

  /** One pass of the shuffle adds n - 1 to the multiset of entries. */
  lemma ShufflePass(n: nat, rand: nat -> nat)
    requires n > 0
    ensures multiset(Shuffle(n, rand)) == multiset(Shuffle(n - 1, rand)) + multiset{(n - 1) as nat}
  {
    var i := n - 1;
    var before := Shuffle(i, rand);
    SwapMultiset(before + [i], i, rand(i) % (i + 1));
    assert multiset(before + [i]) == multiset(before) + multiset{i as nat};
  }

  /** Iota(n) is Iota(n - 1) with n - 1 added. */
  lemma IotaPass(n: nat)
    requires n > 0
    ensures multiset(Iota(n)) == multiset(Iota(n - 1)) + multiset{(n - 1) as nat}
  {
    assert Iota(n) == Iota(n - 1) + [n - 1];
  }

  /** When every choice picks i itself, every swap is a no-op and the
      shuffle is the identity. */
  lemma {:induction false} ShuffleOfIdentityChoices(n: nat, rand: nat -> nat)
    requires forall i :: 0 <= i < n ==> rand(i) % (i + 1) == i
    ensures Shuffle(n, rand) == Iota(n)
  {
    if n > 0 {
      var i := n - 1;
      ShuffleOfIdentityChoices(i, rand);
      assert Swap(Iota(i) + [i], i, i) == Iota(i) + [i];
    }
  }

  lemma {:induction false} IotaCount(n: nat, v: nat)
    ensures multiset(Iota(n))[v] == if v < n then 1 else 0
  {
    if n > 0 {
      var last: nat := n - 1;
      IotaCount(last, v);
      var before := multiset(Iota(last));
      assert Iota(n) == Iota(last) + [last];
      assert multiset(Iota(n)) == before + multiset{last};
      assert multiset{last}[v] == if v == last then 1 else 0;
    }
  }

  /** A sequence with the multiset of 0..n-1 has n entries, all below n,
      pairwise different, and takes every value below n. */
  lemma {:induction false} PermutationFacts(p: seq<nat>, n: nat)
    requires multiset(p) == multiset(Iota(n))
    ensures |p| == n
    ensures forall k :: 0 <= k < n ==> p[k] < n
    ensures forall j, k :: 0 <= j < k < n ==> p[j] != p[k]
    ensures forall v :: 0 <= v < n ==> v in p
  {
    assert |p| == |multiset(p)| == |multiset(Iota(n))| == n;
    forall k | 0 <= k < n
      ensures p[k] < n
    {
      assert p[k] in multiset(p);
      IotaCount(n, p[k]);
    }
    forall j, k | 0 <= j < k < n
      ensures p[j] != p[k]
    {
      if p[j] == p[k] {
        TwiceCounted(p, j, k);
        IotaCount(n, p[j]);
        assert false;
      }
    }
    forall v | 0 <= v < n
      ensures v in p
    {
      IotaCount(n, v);
      assert v in multiset(p);
    }
  }

  /** Two equal entries at different positions count twice. */
  lemma {:induction false} TwiceCounted(p: seq<nat>, j: nat, k: nat)
    requires j < k < |p| && p[j] == p[k]
    ensures multiset(p)[p[j]] >= 2
  {
    var v := p[j];
    assert p == p[..j] + [v] + p[j + 1..k] + [v] + p[k + 1..];
    assert multiset(p) == multiset(p[..j]) + multiset{v} + multiset(p[j + 1..k]) + multiset{v} + multiset(p[k + 1..]);
  }

  // ---------------------------------------------------------------------
  // Matrices

  lemma {:induction false} CellBound(n: nat, c: nat, r: nat)
    requires c < n && r < n
    ensures c * n + r < n * n
  {
    MulMonotone(n, c + 1, n);
  }

  /** The entry of column block c at offset r. */
  function At(m: seq<real>, n: nat, c: nat, r: nat): real
    requires |m| == n * n && c < n && r < n
  {
    CellBound(n, c, r);
    m[c * n + r]
  }

  /** The n * n zero matrix with a 1 in column block c at offset p[c], for
      every c below placed. */
  function Placement(n: nat, p: seq<nat>, placed: nat): (m: seq<real>)
    requires |p| == n && placed <= n
    ensures |m| == n * n
  {
    seq(n * n, k requires 0 <= k < n * n =>
      CellOf(n, k);
      if k / n < placed && p[k / n] == k % n then 1.0 else 0.0)
  }

  /** Position k of an n * n matrix is offset k % n of column block k / n. */
  lemma {:induction false} CellOf(n: nat, k: nat)
    requires k < n * n
    ensures n > 0 && k / n < n && k % n < n
  {
    if n > 0 && k / n >= n {
      MulMonotone(k / n, n, n);
    }
  }

  /** Cell (c, r) of a placement holds 1 exactly when column c is placed at offset r. */
  lemma {:induction false} PlacementAt(n: nat, p: seq<nat>, placed: nat, c: nat, r: nat)
    requires |p| == n && placed <= n && c < n && r < n
    ensures At(Placement(n, p, placed), n, c, r) == if c < placed && p[c] == r then 1.0 else 0.0
  {
    CellBound(n, c, r);
    DivModUnique(c * n + r, n, c, r);
  }

  /** With no column placed, a placement is the zero matrix. */
  lemma {:induction false} ZeroPlacement(n: nat, p: seq<nat>, z: seq<real>)
    requires |p| == n && |z| == n * n && forall k :: 0 <= k < |z| ==> z[k] == 0.0
    ensures z == Placement(n, p, 0)
  {
  }

  /** Placing column c writes a single 1, at c * n + p[c]. */
  lemma {:induction false} PlaceStep(n: nat, p: seq<nat>, c: nat, m: seq<real>)
    requires |p| == n && c < n && p[c] < n && m == Placement(n, p, c)
    ensures c * n + p[c] < n * n && m[c * n + p[c] := 1.0] == Placement(n, p, c + 1)
  {
    var cell := c * n + p[c];
    CellBound(n, c, p[c]);
    DivModUnique(cell, n, c, p[c]);
    var after := Placement(n, p, c + 1);
    forall k | 0 <= k < n * n
      ensures m[cell := 1.0][k] == after[k]
    {
      if k != cell && k / n == c {
        assert k == (k / n) * n + k % n;
      }
    }
  }

  /** Column block c of m holds a 1. */
  predicate ColumnHasOne(m: seq<real>, n: nat, c: nat)
    requires |m| == n * n && c < n
  {
    exists r :: 0 <= r < n && At(m, n, c, r) == 1.0
  }

  /** Offset r of some column block of m holds a 1. */
  predicate OffsetHasOne(m: seq<real>, n: nat, r: nat)
    requires |m| == n * n && r < n
  {
    exists c :: 0 <= c < n && At(m, n, c, r) == 1.0
  }

  /** m is a permutation matrix: its entries are 0 or 1, and every column
      block and every offset holds exactly one 1. */
  predicate IsPermutationMatrix(m: seq<real>, n: nat)
    requires |m| == n * n
  {
    (forall c, r :: 0 <= c < n && 0 <= r < n ==> At(m, n, c, r) == 0.0 || At(m, n, c, r) == 1.0) &&
    (forall c :: 0 <= c < n ==> ColumnHasOne(m, n, c)) &&
    (forall r :: 0 <= r < n ==> OffsetHasOne(m, n, r)) &&
    (forall c, r, r' :: 0 <= c < n && 0 <= r < n && 0 <= r' < n && At(m, n, c, r) == 1.0 && At(m, n, c, r') == 1.0
       ==> r == r') &&
    (forall c, c', r :: 0 <= c < n && 0 <= c' < n && 0 <= r < n && At(m, n, c, r) == 1.0 && At(m, n, c', r) == 1.0
       ==> c == c')
  }

  /** A full placement of a permutation has its 1 of column block c at
      offset p[c], and it is a permutation matrix. */
  lemma {:induction false} PermutationMatrix(n: nat, p: seq<nat>)
    requires multiset(p) == multiset(Iota(n))
    ensures |p| == n
    ensures forall c, r :: 0 <= c < n && 0 <= r < n ==>
      At(Placement(n, p, n), n, c, r) == if p[c] == r then 1.0 else 0.0
    ensures IsPermutationMatrix(Placement(n, p, n), n)
  {
    PermutationFacts(p, n);
    var m := Placement(n, p, n);
    forall c, r | 0 <= c < n && 0 <= r < n
      ensures At(m, n, c, r) == if p[c] == r then 1.0 else 0.0
    {
      PlacementAt(n, p, n, c, r);
    }
    forall c | 0 <= c < n
      ensures ColumnHasOne(m, n, c)
    {
      assert At(m, n, c, p[c]) == 1.0;
    }
    forall r | 0 <= r < n
      ensures OffsetHasOne(m, n, r)
    {
      assert r in p;
      var c :| 0 <= c < |p| && p[c] == r;
      assert At(m, n, c, r) == 1.0;
    }
  }

  /** The identity placement has its 1s exactly on the diagonal. */
  lemma {:induction false} IdentityMatrix(n: nat)
    ensures forall c, r :: 0 <= c < n && 0 <= r < n ==>
      At(Placement(n, Iota(n), n), n, c, r) == if c == r then 1.0 else 0.0
  {
    forall c, r | 0 <= c < n && 0 <= r < n
      ensures At(Placement(n, Iota(n), n), n, c, r) == if c == r then 1.0 else 0.0
    {
      PlacementAt(n, Iota(n), n, c, r);
    }
  }

  /** When every random choice picks i itself, getPermutationMatrix builds
      the same matrix as getIdentityMatrix. */
  lemma {:induction false} IdentityChoicesGiveIdentity(n: nat, rand: nat -> nat)
    requires forall i :: 0 <= i < n ==> rand(i) % (i + 1) == i
    ensures Placement(n, Shuffle(n, rand), n) == Placement(n, Iota(n), n)
  {
    ShuffleOfIdentityChoices(n, rand);
  }

  // ---------------------------------------------------------------------
  // The builders

  /** The shuffle loop of getPermutationMatrix over the whole of permut:
      pass i sets permut[i] = i and swaps it with permut[rand(i) % (i + 1)]. */
  method ShuffleInPlace(permut: array<nat>, rand: nat -> nat)
    modifies permut
    ensures permut[..] == Shuffle(permut.Length, rand)
  {
    for i := 0 to permut.Length
      invariant permut[..i] == Shuffle(i, rand)
    {
      ghost var before := permut[..i];
      permut[i] := i;
      var j := rand(i) % (i + 1);
      var tmp := permut[i];
      permut[i] := permut[j];
      permut[j] := tmp;
      assert permut[..i + 1] == Swap(before + [i], i, j);
    }
    assert permut[..] == permut[..permut.Length];
  }

  /** The placement loop of getPermutationMatrix: a 1 at offset p[c] of
      every column block c of the zero matrix m. */
  method PlaceOnes(m: array<real>, n: nat, p: seq<nat>)
    requires m.Length == n * n && |p| == n && m[..] == Placement(n, p, 0)
    requires forall c :: 0 <= c < n ==> p[c] < n
    modifies m
    ensures m[..] == Placement(n, p, n)
  {
    for c := 0 to n
      invariant m[..] == Placement(n, p, c)
    {
      ghost var before := m[..];
      PlaceStep(n, p, c, before);
      m[c * n + p[c]] := 1.0;
      assert m[..] == before[c * n + p[c] := 1.0];
    }
  }

  /** getPermutationMatrix: shuffle 0..n-1 inside out, then write a 1 at
      offset permut[c] of every column block c of a zero matrix. The result
      is a permutation matrix whatever rand returns. */
  method GetPermutationMatrix(n: nat, rand: nat -> nat) returns (matrix: seq<real>)
    ensures matrix == Placement(n, Shuffle(n, rand), n)
    ensures |matrix| == n * n && IsPermutationMatrix(matrix, n)
  {
    var m := new real[n * n](_ => 0.0);
    var permut := new nat[n](_ => 0);
    ShuffleInPlace(permut, rand);
    ghost var p := permut[..];
    ShuffleIsPermutation(n, rand);
    PermutationFacts(p, n);
    PermutationMatrix(n, p);
    ZeroPlacement(n, p, m[..]);
    PlaceOnes(m, n, permut[..]);
    matrix := m[..];
  }

  /** getIdentityMatrix: a zero matrix with a 1 at offset c of every column
      block c. */
  method GetIdentityMatrix(n: nat) returns (matrix: seq<real>)
    ensures matrix == Placement(n, Iota(n), n)
    ensures |matrix| == n * n
    ensures forall c, r :: 0 <= c < n && 0 <= r < n ==> At(matrix, n, c, r) == if c == r then 1.0 else 0.0
  {
    var m := new real[n * n](_ => 0.0);
    ZeroPlacement(n, Iota(n), m[..]);
    for c := 0 to n
      invariant m[..] == Placement(n, Iota(n), c)
    {
      ghost var before := m[..];
      PlaceStep(n, Iota(n), c, before);
      m[c * n + c] := 1.0;
      assert m[..] == before[c * n + c := 1.0];
    }
    matrix := m[..];
    IdentityMatrix(n);
  }
}
