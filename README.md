# Index-level models of three PDP benchmark kernels

This project models, in Dafny, the integer and index structure of three
kernels of the PDP benchmark collection and proves what they promise:

- **lab-5 (FFT).** `bit_shuffle`, the bit-reversal permutation of the
  radix-2 decimation-in-time Cooley–Tukey FFT; the recursive `fft`/`ifft`;
  and `parallel_fft`, which scatters the input into the shared output
  buffer and then runs the stages of block size 2, 4, …, N, thread `t`
  taking the blocks that start at `t*n + k*T*n`. Complex values are a
  generic element type `E`. The butterfly `(r1 + w*r2, r1 - w*r2)`, with
  the twiddle `w` fixed by `(i, n)`, is a function parameter
  `bf(r1, r2, i, n)`. `fft` and `ifft` differ only in the sign of the twiddle
  angle, so one method with a butterfly parameter models both. The main
  theorem: running the stage loop thread by thread gives the same buffer as
  the recursive transform, for every butterfly and every thread count.
- **lab-4 (multi-word modular reduction).** `pow_mod` (square and
  multiply), `word_pow_mod` (powers of `2^W mod m` computed from
  `(-m) % m`), `vector_thread_range` (a balanced contiguous split of the
  words among `T` threads) and `vector_mod`. `vector_mod` runs a Horner loop
  per thread, then combines the partial results in a binary tree of
  stages. The main theorem: the result is the number `V[0..N)` (base `2^W`,
  least significant word first) reduced modulo `m`.
- **lab-3 (test matrices).** `getPermutationMatrix` (an inside-out shuffle
  of `0..n-1`, then a single `1` per column block) and `getIdentityMatrix`.
  The main theorem: the result is a permutation matrix whatever `rand()`
  returns.

Modules: `Arith` (powers and Euclidean-division facts shared by the
others), `BitReversal`, `Fft`, `VectorMod` and `MatrixBuilders`. Each kernel
keeps the form of its source. Loops that update variables or buffers in
place are methods over arrays, each proved against a specification function
(`BitReversed`, `FftAt`, `Stage`, `Number`, `Shuffle`, `Placement`). The
properties of those functions are proved as lemmas.

Threads are run one after another. In `parallel_fft` and `vector_mod`, each
stage between two barriers is a loop over the thread ids. The lemmas show
that, within one stage, each thread changes only the blocks or entries it owns,
and what it writes depends only on data that no other thread of that stage
changes. That any interleaving the barrier allows therefore gives the same
buffer as this order is argued from those lemmas, not proved: the model has
no notion of interleaving.

Three behaviours of the code that a reader might not expect, all modelled
as written:

- `bit_shuffle` does not reject `n == 0`: `index_len` wraps to `2^64 - 1`
  and the outer loop runs zero times. `IndexLen` models the wrap.
- `parallel_fft` does not cap `T` at `N`: the model accepts any `T >= 1`,
  and threads past the last block get no work.
- `ifft` has no `1/N` scale, so no round trip with `fft` is claimed.

## Model

| member | source | states |
|---|---|---|
| `BitReversal.CountlZero` | lab-5/main.cpp:11 | the leading zero count of 0 is 64; for a non-zero 64-bit word the count z puts n between 2^(63-z) and 2^(64-z) |
| `BitReversal.IndexLen` | lab-5/main.cpp:11 | for n ≥ 1, index_len is the floor of log2 n (2^len ≤ n < 2^(len+1)); for n == 0 it wraps to 2^64 - 1 |
| `BitReversal.ReverseIndex` | lab-5/main.cpp:13-20 | the shift-and-accumulate loop returns i with its low len bits in reverse order |
| `BitReversal.ReverseBitsInvolution` | lab-5/main.cpp:12-22 | reversing the low len bits twice gives back every index below 2^len |
| `BitReversal.ReverseBitsInjective` | lab-5/main.cpp:12-22 | two different indices below 2^len are sent to two different targets, so, when n is a power of two (every index below n = 2^len), no write of bit_shuffle overwrites another |
| `BitReversal.ShuffleTargetInBounds` | lab-5/main.cpp:11-22 | every target newIndex is below n for every n ≥ 1, whether n is a power of two or not |
| `BitReversal.BitReversedMoves` | lab-5/main.cpp:22 | the element at index i of the input lands at the reversal of i: out[rev(i)] == in[i] |
| `BitReversal.BitReversedInvolution` | lab-5/main.cpp:10-24 | shuffling a power-of-two-length sequence twice restores it |
| `BitReversal.BitShuffle` | lab-5/main.cpp:10-24 | for n a power of two, out[0..n) becomes the bit-reversed order of in[0..n); for any n, nothing at or beyond n is written |
| `Fft.RecursionDepthIsLog2` | lab-5/main.cpp:26-33 | halving a power of two n, as each recursive call of fft does with its size, reaches the base case n == 1 after exactly log2 n steps (a fact about the chain of sizes, not derived from the calls of `Fft.RecursiveFft`) |
| `Fft.ButterfliesAt` | lab-5/main.cpp:34-40 | after the combine step, position i < n/2 holds the first butterfly output of the pair (i, i + n/2) and position i + n/2 the second |
| `Fft.Combine` | lab-5/main.cpp:34-40 | the combine loop replaces the block by its butterflies and leaves every position outside the block unchanged |
| `Fft.RecursiveFft` | lab-5/main.cpp:26-41 | fft (and ifft, lines 76-91) writes the recursive transform of in[0..n) into out[0..n) and writes nothing else; n == 1 copies the single element |
| `Fft.FftAtWindow` | lab-5/main.cpp:26-41 | the transform of a window depends only on the elements inside the window |
| `Fft.FftHalves` | lab-5/main.cpp:32-40 | the transform of two equal-length halves is the combine step applied to the transforms of the halves |
| `Fft.Scatter` | lab-5/main.cpp:48-50 | the threads' strided copy loops together copy every position below N, so out[0..N) == in[0..N) afterwards |
| `Fft.ScatterIndexUnique` | lab-5/main.cpp:48 | position t + i*T is visited only by thread t on its i-th pass, so the threads' index sets are disjoint |
| `Fft.ThreadBlockOwned` | lab-5/main.cpp:54 | each start t*n + k*T*n is a multiple of n, and its block index modulo T is t |
| `Fft.BlockHasThread` | lab-5/main.cpp:54 | every multiple j of n is t*n + k*T*n for t = block index mod T and k = block index div T, so every block belongs to exactly one thread |
| `Fft.MultiplesApart` | lab-5/main.cpp:54-61 | two different block starts of one stage are at least n apart, so the blocks of different threads share no index |
| `Fft.Pow2Divides` | lab-5/main.cpp:52-54 | every stage size n = 2, 4, … up to a power of two N divides N, so the blocks tile the buffer |
| `Fft.ThreadStage` | lab-5/main.cpp:54-62 | one thread's block loop combines exactly the blocks whose index is congruent to t modulo T, leaves every other block as it was, and leaves a trailing partial block below N and everything above N unchanged |
| `Fft.RunStage` | lab-5/main.cpp:52-62 | the threads of one stage, run one after another, leave every block of size n combined |
| `Fft.BlocksDoubling` | lab-5/main.cpp:52-62 | the stage of size 2n turns a buffer of transformed size-n blocks into a buffer of transformed size-2n blocks, the same as the recursive combine |
| `Fft.ParallelFft` | lab-5/main.cpp:43-74 | for N a power of two and any T ≥ 1, parallel_fft leaves the same out[0..N) as the recursive fft of in[0..N) |
| `VectorMod.SquareStep` | lab-4/vector_mod.cpp:11-15 | one pass of the square-and-multiply loop keeps result * base^power unchanged modulo m |
| `VectorMod.PowMod` | lab-4/vector_mod.cpp:8-18 | pow_mod returns base^power mod m for power > 0, and the literal 1, unreduced, for power == 0, whatever m is (even m == 0, since the loop never runs) |
| `VectorMod.NegatedModulus` | lab-4/vector_mod.cpp:21 | (-m) % m on a W-bit word has the residue of 2^W modulo m |
| `VectorMod.WordPowMod` | lab-4/vector_mod.cpp:20-22 | word_pow_mod(p, m) is 2^(W*p) mod m for p > 0, and 1 for p == 0 |
| `VectorMod.ThreadRange` | lab-4/vector_mod.cpp:27-34 | thread t receives n/T + 1 words if t < n % T, and n/T words otherwise |
| `VectorMod.RangesBalanced` | lab-4/vector_mod.cpp:28-32 | the numbers of words of any two threads differ by at most one |
| `VectorMod.RangeEnds` | lab-4/vector_mod.cpp:27-34 | the first range starts at 0 and the last one ends at n |
| `VectorMod.RangesAdjacent` | lab-4/vector_mod.cpp:27-34 | each range ends where the next one starts |
| `VectorMod.RangeWithin` | lab-4/vector_mod.cpp:27-34 | every range of a thread t < T lies within [0, n) |
| `VectorMod.RangesOrdered` | lab-4/vector_mod.cpp:27-34 | ranges of different threads do not overlap |
| `VectorMod.RangeOf` | lab-4/vector_mod.cpp:27-34 | every word below n lies in the range of some thread |
| `VectorMod.NumberIsWeightedSum` | lab-4/vector_mod.cpp:53 | the Horner form of V is the weighted sum of V[j] * 2^(W*j) |
| `VectorMod.NumberJoin` | lab-4/vector_mod.cpp:61 | the words [b, c) are the words [b, a) plus the words [a, c) shifted up by a - b words |
| `VectorMod.Horner` | lab-4/vector_mod.cpp:50-56 | a thread's Horner loop leaves the residue of its words [b, e) as a number; an empty range gives 0 |
| `VectorMod.StageDisjoint` | lab-4/vector_mod.cpp:57-59 | in the stage of stride i, a writer t (t % 2i == 0) reads only t + i, which is not a writer of that stage and holds a result of the previous stage |
| `VectorMod.CombineStep` | lab-4/vector_mod.cpp:59-61 | adding the neighbour's residue shifted by the words between the two starts gives the residue of both ranges together |
| `VectorMod.CombineNeighbor` | lab-4/vector_mod.cpp:59-62 | one writer's combine makes partial_results[t] the residue of threads t..t+2i-1 and changes no other entry |
| `VectorMod.ReduceStage` | lab-4/vector_mod.cpp:57-63 | after the stage of stride i, each t with t % 2i == 0 holds the residue of the words of threads t..min(t+2i, T)-1 |
| `VectorMod.VectorMod` | lab-4/vector_mod.cpp:40-75 | vector_mod returns the number V[0..N) modulo m, for every thread count T ≥ 1 |
| `MatrixBuilders.Swap` | lab-3/main.cpp:77 | the swap exchanges the two positions and changes nothing else |
| `MatrixBuilders.ShuffleInPlace` | lab-3/main.cpp:73-78 | the shuffle loop leaves permut equal to the inside-out shuffle determined by the random choices |
| `MatrixBuilders.ShuffleIsPermutation` | lab-3/main.cpp:73-78 | for every sequence of random choices the shuffle holds each of 0..n-1 exactly once |
| `MatrixBuilders.PermutationFacts` | lab-3/main.cpp:73-78 | a permutation of 0..n-1 has n entries below n, pairwise distinct, taking every value below n |
| `MatrixBuilders.ShuffleOfIdentityChoices` | lab-3/main.cpp:75-78 | when every choice rand() % (i + 1) equals i, every swap is a no-op and the shuffle is 0, 1, …, n-1 |
| `MatrixBuilders.CellBound` | lab-3/main.cpp:81 | every write index c*n + r with c, r < n is below n*n |
| `MatrixBuilders.PlaceStep` | lab-3/main.cpp:80-82 | placing column c writes a single 1, at c*n + p[c], inside the matrix |
| `MatrixBuilders.PlaceOnes` | lab-3/main.cpp:80-82 | the placement loop turns the zero matrix into the matrix with a 1 at offset p[c] of every column block c |
| `MatrixBuilders.PermutationMatrix` | lab-3/main.cpp:80-84 | for a permutation p, cell (c, r) is 1 exactly when p[c] == r and 0 otherwise, and every column block and every offset holds exactly one 1 |
| `MatrixBuilders.GetPermutationMatrix` | lab-3/main.cpp:71-85 | getPermutationMatrix returns n*n entries forming a permutation matrix, whatever rand() returns |
| `MatrixBuilders.IdentityMatrix` | lab-3/main.cpp:90-92 | the identity placement has its 1s exactly on the diagonal |
| `MatrixBuilders.GetIdentityMatrix` | lab-3/main.cpp:87-95 | getIdentityMatrix returns n*n entries, with 1 exactly at c*n + c and 0 elsewhere |
| `MatrixBuilders.IdentityChoicesGiveIdentity` | lab-3/main.cpp:71-95 | when every choice picks i itself, getPermutationMatrix builds the same matrix as getIdentityMatrix |

## Left out

- Complex floating-point arithmetic (`std::complex<double>`, `std::polar`, `pi_v`): the elements are a generic type and the butterfly is a function parameter, so nothing numeric is claimed.
- `ifft`: modelled by `Fft.RecursiveFft` with the conjugate butterfly; it has no `1/N` scale, so no round trip with `fft` is claimed.
- Threads, `std::barrier`, `join` in `parallel_fft` and `vector_mod`: each stage runs its thread ids one after another; the disjointness lemmas are the argument, not a proof, that this order stands for the concurrent one.
- Fft.RecursiveFft: requires n to be a power of two. For n == 0 the source never terminates (0 / 2 == 0). For odd n ≥ 3, out[n-1] is never written; when the chain of sizes n/2, n/4, … below n meets an odd size ≥ 3 (n = 6, 7, 10, 11, …), a combine step also reads positions the recursive calls never wrote. The model does not describe these results. The same holds for `ifft` (lab-5/main.cpp:76-91).
- Fft.ParallelFft: requires N to be a power of two; for other N the source's stage loop processes only the blocks that fit, which the model does not describe.
- BitReversal.BitShuffle: for n not a power of two the model proves only that no write leaves [0, n), not which positions receive which element.
- `mod_ops.h` is not part of this model: `mul_mod`, `add_mod` and `times_word` are given the meaning of their names, `(a*b) % m`, `(a+b) % m` and `(a*2^W) % m`.
- `num_threads.h` and `vector_mod.h` are not part of this model: `get_num_threads()` is the parameter `T ≥ 1` and the word width is the parameter `W`.
- VectorMod.NegatedModulus: assumes `IntegerWord` is unsigned and at least as wide as `unsigned int`; for a narrower word, `-mod` is promoted to `int` and `(-mod) % mod` is 0, which the model does not describe.
- VectorMod.PowMod: requires m ≥ 1 only when power > 0, because `mul_mod` then divides by m; the words are unbounded naturals, and the W-bit width of `IntegerWord` appears only through `W` and the bound m < 2^W.
- VectorMod.VectorMod: the words of V are not required to be below 2^W; the result holds for any naturals.
- The `alignas(hardware_destructive_interference_size)` padding of `partial_result_t`: performance only.
- `rand()` and `srand`: the random choices are a parameter `rand`, `rand(i)` being the value of the call made in pass i of the shuffle.
- `double` matrix entries are `real`: only 0 and 1 are ever stored.
- `mulMatrix` and `mulMatrix256` (lab-3), `addMatrix` and `addMatrix256` (lab-2), `integrateSequential` and `integrateParallel` (lab-1): floating-point arithmetic, SIMD and OpenMP.
- All `main` functions, timing, `hardware_concurrency`, CSV output, `lab-4/entrypoint.cpp` and the plotting scripts: input/output and benchmarking.
