# Parallel prime search: a verified model

This project models `src/main.rs` of a multithreaded search that finds every
odd prime up to `u32::MAX` and writes them to standard output, in order, as
4-byte big-endian words. The search has five parts:

- **Seed sieve.** A single-threaded sieve, `find_prime_vec`, finds the seed primes below
  `max_track`, the square root of the bound.
- **Partitioner.** The rest of the range is cut at the multiples of `max_track`. Each
  block `[low, hi)` goes to a worker task.
- **Workers.** Each worker keeps the candidates of its block that pass trial division,
  `is_prime`, against the seed primes, and sends them on a channel.
- **Seed primes sent last.** Once all tasks are submitted, `main` sends the seed
  primes themselves.
- **Collector.** A collector thread gathers everything, sorts it, and writes each value
  with `to_be_bytes`.

The model replaces the word maximum with a parameter `max`:

- `checked_mul` and `checked_add` overflow exactly when their result would exceed `max`.
- The root `Isqrt(max)` plays the part of `max_track`.
- With `max = 2^32 - 1`, this is the program itself. The root is then 65535, and
  `65535 * 65537 = 2^32 - 1`.
- `n | 1` on the already-incremented boundary is written arithmetically. It adds one to
  an even number and leaves an odd one unchanged.

The channel is modelled by the multiset of the values sent into it:

- `SearchPrimes` is one schedule: blocks in submission order, then the seeds.
- The collector lemmas hold for every arrival order with that multiset.

Modules, one file each:

- `Arith`: divisibility, primality, floor square root, least divisor.
- `Seqs`: orderings, and sequences determined by their contents.
- `TrialDivision`: `is_prime`.
- `SeedSieve`: `find_prime_vec`.
- `Partition`: `point`, `low`, `hi` and the enumeration loop.
- `Worker`: `check_block` and the submission loop.
- `Collector`: sort and big-endian encoding.
- `Search`: the end-to-end results.
- `SmallBounds`: two concrete small bounds.

The main results:

- **The output, for any bound.** The output is the big-endian encoding of the strictly
  ascending odd primes in `[3, max)`, without the root of `max`.
- **The output, for `u32::MAX`.** Both excluded values are composite:
  - 65535 is a multiple of 3;
  - `2^32 - 1` is a multiple of 3.

  So the program outputs exactly the odd primes up to and including `2^32 - 1`.
- **Why the seeds suffice.** Trial division by the seeds is exact on every block
  candidate, even when the root is prime:
  - No candidate is a multiple of the root.
  - So a composite candidate's least prime factor lies strictly below the root.

For a bound of 9 (root 3) the search outputs 5, 7 and never 3:

- `find_prime_vec(3)` excludes 3.
- 3 is the boundary `point(1)`, which no block contains.

`SmallBounds.NineSkipsRoot` proves the code's answer. For the program's own bound
the difference does not arise, because 65535 is not prime.

## Model

| member | source | states |
|---|---|---|
| Arith.Isqrt | src/main.rs:9 | the floor square root: `r*r <= n < (r+1)*(r+1)`, the value `(i as f64).sqrt() as u32` is taken to have |
| Arith.LeastDivisorBelowRoot | src/main.rs:9-12 | a composite number has its least divisor at or below its floor square root, which is why the test stops at the root |
| TrialDivision.NoDivisorUpToMeaning | src/main.rs:10-12 | on a sorted list, `take_while(p <= limit).all(i % p != 0)` holds iff no listed entry up to `limit` divides `i` |
| TrialDivision.NoDivisorUpTo | src/main.rs:10-12 | the iterator chain: walk `primes` from the front while entries are at most `limit`, failing at the first that divides `i`; `NoDivisorUpToMeaning` states what it decides |
| TrialDivision.IsPrime | src/main.rs:8-13 | `is_prime(i, primes)`: that walk with the limit `isqrt(i)`; `IsPrimeMeaning` and `TrialDivisionDecides` state what it decides |
| TrialDivision.IsPrimeMeaning | src/main.rs:8-13 | `is_prime(i, ps)` holds iff no entry of `ps` at most `isqrt(i)` divides `i` |
| TrialDivision.TrialDivisionDecides | src/main.rs:8-13 | with a sorted list of numbers >= 2 holding every prime divisor of `i` up to its root, `is_prime(i, ps)` iff `i` is prime |
| SeedSieve.OddPrimesBelow | src/main.rs:15-24 | reference result of the sieve: strictly ascending, and `x` is in it iff `x` is an odd prime with `3 <= x < n` |
| SeedSieve.OddPrimesBelowSuffice | src/main.rs:18-21 | before candidate `i` the odd primes below `i` are a sorted, sufficient divisor list for `i` |
| SeedSieve.SieveTestExact | src/main.rs:19 | testing odd `i` against the odd primes below it accepts `i` iff `i` is prime |
| SeedSieve.SieveStep | src/main.rs:18-21 | one loop step keeps the invariant: from the odd primes below `i`, pushing `i` when it passes gives those below `i + 2` |
| SeedSieve.SieveExit | src/main.rs:18 | where `step_by(2)` stops, the odd primes below the stopping candidate are those below `max_prime` |
| SeedSieve.FindPrimeVec | src/main.rs:15-24 | returns exactly the odd primes in `[3, max_prime)`, strictly ascending; `max_prime` and 2 never appear |
| SmallBounds.SmallSeeds | src/main.rs:15-24 | `find_prime_vec(10)` is `[3, 5, 7]` |
| Partition.StepBy2 | src/main.rs:77 | `(low..hi).step_by(2)` is strictly ascending and holds exactly the `x` in `[low, hi)` of `low`'s parity |
| Partition.CheckedMul | src/main.rs:65-68 | `checked_mul` in a word whose largest value is `max`: the product when it is at most `max`, none otherwise; its effect is stated through `Point` by `PointBounds` |
| Partition.CheckedAdd | src/main.rs:72-75 | `checked_add` in a word whose largest value is `max`; its effect is stated through `Low` by `LowBounds` |
| Partition.SetLowBit | src/main.rs:73 | setting the lowest bit of `n` gives a result that is odd and is `n` or `n + 1`: the least odd number at least `n` |
| Partition.Point | src/main.rs:64-69 | `point(i)`: `root * i`, or `max` when the product overflows; `PointBounds`, `PointMonotone` and `PointStep` state its behaviour |
| Partition.Low | src/main.rs:70-75 | `low`: the next odd number above `point(i)`, or `point(i)` when adding 1 overflows; `LowBounds` states its behaviour |
| Partition.Hi | src/main.rs:76 | `hi` is the next boundary `point(i + 1)`; `BlocksOrdered` and `FinalBlock` state how blocks meet and where the last ends |
| Partition.PointBounds | src/main.rs:64-69 | `point(i)` never exceeds `max`, equals `root * i` whenever that fits, and lies below `max` only as that exact multiple |
| Partition.PointMonotone | src/main.rs:64-69 | `point` is non-decreasing in `i` |
| Partition.PointStep | src/main.rs:64-69 | below `max`, consecutive boundaries are exactly `root` apart |
| Partition.LowBounds | src/main.rs:72-77 | while `point(i) < max`, `low` is odd and in `(point(i), point(i) + 2]`; when `point(i) == max`, `low == hi == max` and the block is empty |
| Partition.BlockMembership | src/main.rs:72-77 | block `i` holds exactly the odd `x` with `point(i) < x < point(i + 1)` |
| Partition.BlocksDisjoint | src/main.rs:72-77 | two different blocks share no candidate |
| Partition.BlocksOrdered | src/main.rs:72-76 | each block ends no later than any later block starts |
| Partition.FinalBlock | src/main.rs:61-82 | the loop's `hi` reaches `max` at block `BlockCount`, and at no earlier block |
| Partition.BlockCountUnique | src/main.rs:82 | the first block whose `hi` is `max`, where the loop breaks, is block `BlockCount` |
| Partition.EnumerateBlocks | src/main.rs:61-83 | the `for i in 1..` loop terminates; it submits exactly `Blocks(root, max)`, the last ending at `max` and every earlier one below it |
| Partition.BlocksCover | src/main.rs:61-83 | every odd `x` with `root < x < max` that is not a multiple of `root` lies in submitted block `x / root` |
| Partition.BlockContents | src/main.rs:61-83 | every candidate of a block is odd, between `root` and `max`, not a multiple of `root`, and its block is submitted |
| Search.U32Partition | src/main.rs:38-39 | for `max = 2^32 - 1`, `65535 * 65537` does not overflow, the loop submits 65536 blocks, and the last `hi` is `max` |
| Search.Seeds | src/main.rs:56 | the seed primes `find_prime_vec(max_track)`: the odd primes below the root, as `FindPrimeVec` proves |
| Search.Sent | src/main.rs:79-87 | the channel contents: each block's worker output in submission order, then the seed primes; `SentExactly` states its members |
| Worker.CheckBlock | src/main.rs:26-31 | `check_block` sends exactly the candidates that pass `is_prime`, in their order (ascending candidates give ascending output), never more than it was given |
| Worker.BlockOutputBounds | src/main.rs:26-31 | a block's output is ascending and lies inside `[low, hi)` |
| Worker.SentFromBlock | src/main.rs:29-30 | every value the workers send is a candidate of one submitted block and passed trial division |
| Worker.BlockPrimeSent | src/main.rs:29-30 | every candidate of a submitted block that passes trial division is sent |
| Worker.SendAllAscending | src/main.rs:61-83 | when blocks are ordered, the concatenated worker outputs are strictly ascending |
| Worker.SendAllStep | src/main.rs:81 | submitting one more block appends exactly that block's output |
| Worker.RunWorkers | src/main.rs:61-83 | the submission loop, run sequentially, sends the reference concatenation `SendAll` |
| Seqs.Concat | src/main.rs:44 | the collected stream holds a value iff one of the per-task streams does |
| Seqs.ConcatAscending | src/main.rs:44 | streams that are each ascending, and each below every later one, concatenate to an ascending stream |
| Search.SeedsDecideCandidates | src/main.rs:29 | for every block candidate, trial division by `find_prime_vec(max_track)` is exact, even when the root is prime |
| Search.SubmittedBlocksOrdered | src/main.rs:61-83 | the submitted blocks are ordered |
| Search.PrimeNotMultipleOfRoot | src/main.rs:64-69 | an odd prime above the root is never a boundary `point(i)` |
| Search.WorkerSentSound | src/main.rs:56-83 | every value the workers send is an odd prime strictly between the root and `max` |
| Search.WorkerSentComplete | src/main.rs:56-83 | every odd prime strictly between the root and `max` is sent by a worker |
| Search.WorkerSentExactly | src/main.rs:56-83 | the workers send, in submission order, exactly the odd primes strictly between root and `max`, strictly ascending |
| Search.SentAscendingExactly | src/main.rs:56-87 | seeds followed by worker output is strictly ascending, and holds exactly the odd primes in `[3, max)` other than the root |
| Search.SentExactly | src/main.rs:56-87 | everything put on the channel is an odd prime below `max` other than the root, and every such prime is put on it |
| Search.SearchPrimes | src/main.rs:55-87 | the sequential schedule of `main` sends exactly `Sent(max)`: the odd primes in `[3, max)` other than the root |
| Search.OutputIsOddPrimes | src/main.rs:33-93 | in any arrival order, the bytes written are exactly the big-endian encoding of a strictly ascending list, 4 bytes per value, of exactly the odd primes in `[3, max)` other than the root |
| Search.U32Constants | src/main.rs:38-39 | the root of `2^32 - 1` is 65535; neither 65535 nor `2^32 - 1` is prime |
| Search.OutputWhenBoundsComposite | src/main.rs:33-93 | when the root and `max` are composite, the output is byte for byte the big-endian encoding of the ascending odd primes up to and including `max` |
| SmallBounds.NineSkipsRoot | src/main.rs:39-87 | for bound 9 the root is 3 and the values sent are `[5, 7]`: 3 is never tested |
| Collector.Insert | src/main.rs:46 | inserting into a sorted sequence keeps it sorted and adds exactly one occurrence of the value |
| Collector.Sort | src/main.rs:46 | `sort` yields a sorted permutation of its input |
| Seqs.SortedDeterminedByMultiset | src/main.rs:46 | two sorted sequences with the same multiset are equal, so the sorted output does not depend on arrival order |
| Seqs.AscendingDeterminedByMembers | src/main.rs:46 | two strictly ascending sequences with the same members are equal |
| Collector.BeBytesRoundTrip | src/main.rs:51 | decoding the four big-endian bytes of a word gives the word back |
| Collector.BeBytesRoundTripBack | src/main.rs:51 | every four bytes are the encoding of the word they decode to |
| Collector.ToBeBytes | src/main.rs:51 | `to_be_bytes`: four bytes, most significant first; with `FromBeBytes` it is a bijection between words and 4-byte groups (`BeBytesRoundTrip`, `BeBytesRoundTripBack`) |
| Collector.EncodeAll | src/main.rs:50-52 | writes four bytes per word, in order, so `K` words give `4K` bytes; `EncodeAllRoundTrip` and `DecodeAllRoundTrip` make it invertible |
| Collector.EncodeAllRoundTrip | src/main.rs:50-52 | the written stream decodes to exactly the words written, in order |
| Collector.DecodeAllRoundTrip | src/main.rs:50-52 | every stream of whole words is exactly the encoding of the words it decodes to, so the bytes written are fixed by their decoding |
| Collector.SortKeepsWords | src/main.rs:46 | sorting keeps every value a `u32` |
| Collector.Collect | src/main.rs:44-52 | the collector writes `4K` bytes for `K` received values; they decode to a sorted permutation of the values received |
| Collector.CollectDeterministic | src/main.rs:44-52 | any two arrival orders of the same values give byte-identical output |

## Left out

- Threads, the `mpsc` channel, `Arc`, the thread pool and the joins (src/main.rs:34, 42-53, 59-60, 79-81, 87-91). They are concurrency. The channel is modelled as the multiset of values sent, and `SearchPrimes` runs the tasks in submission order.
- The `f64` square root (src/main.rs:9, 39). It is replaced by the integer floor square root `Isqrt`. For `u32` inputs, the truncated `f64` square root equals `isqrt`; this is an assumption of the model, not proved.
- `u32` arithmetic in general. Words are unbounded naturals, and overflow is modelled only where the program checks for it (`checked_mul`, `checked_add`), against the parameter `max`. The loop index `i` of `for i in 1..` is a `u32` in the program. The model lets it grow freely, because the loop stops at `i = 65536` for the program's bound.
- Standard output, `BufWriter`, `eprintln!` logging and `available_parallelism`. These are I/O and environment queries. `Collect` returns the byte sequence that would be written.
- The `expect` and `unwrap` panic paths: failed sends, writes or thread spawns. They are outside the arithmetic being modelled.
- Rust's `sort` internals. Only its result is modelled: a sorted permutation, which is unique.
- TrialDivision.IsPrime: it requires every listed divisor to be positive. The program would panic on `i % 0`, and the seed list never contains 0.
- Collector.Collect: it requires every received value to be at most `2^32 - 1`, which the channel's `u32` type guarantees.
