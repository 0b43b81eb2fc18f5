# Disjoint sets and Euclid's gcd, in Dafny

This project models the two computational pieces of a small competitive-programming
library written in Rust:

- `DisjointSet` (`src/ds/disjoint_set.rs`): a union-find structure over the
  universe `0..=n`. It holds two vectors of fixed length `n + 1`: the parent
  links and the ranks. `new(n)` makes every element its own root with rank 1.
  `find(u)` walks parent links until it reaches a root. `merge(u, v)` finds
  both roots and, when they differ, links them by rank.
- `gcd` and `lcm` (`src/math.rs`): Euclid's algorithm as a loop on two mutable
  integers, and the least common multiple as `p * q / gcd(p, q)`.

`disjoint_set.dfy` (module `DisjointSets`) has two layers. The first describes
the structure as a value, `Forest(parent, rank)`. `Forest.Valid()` is the
invariant that every link stays in the universe and that every non-root has a
strictly lower rank than its parent. Then come the root of an element
(`Root`), the forest after a merge (`Merged`) and after a sequence of merges
(`MergeAll`), and the lemmas about the partition these induce. The second layer
is the class `DisjointSet`. Its two arrays are updated in place by `Merge`. Its
`Find` is the source's `while` loop, and the rank invariant gives the loop's
termination measure. Each method is proved against the first layer: `Find`
returns `Root(Model(), u)`, and `Merge` leaves `Model() == Merged(old(Model()), u, v)`.
The Rust field `set` is called `parent` here, because `set` is a Dafny keyword.

`math.dfy` (module `Math`) defines `Euclid`, the recursive form of the loop,
and proves that it is a greatest common divisor in the divisibility order.
The method `Gcd` is the loop itself, proved equal to `Euclid`. The function
`Lcm` is the source's expression; the lemmas prove that it is a common
multiple and that it divides every common multiple.

The comment at `src/ds/disjoint_set.rs:23` says "path compression", but the loop
at lines 24-26 only reads the links. The model follows the code: `Find` has no
`modifies` clause, so it provably changes nothing.

## Model

| member | source | states |
|---|---|---|
| `DisjointSets.Init` | src/ds/disjoint_set.rs:10-15 | a fresh structure of `n + 1` elements satisfies the rank invariant |
| `DisjointSets.InitRoots` | src/ds/disjoint_set.rs:10-15 | after `new(n)` every element `i` in `0..=n` is its own root (`find(i) == i`), and the roots are exactly `0..=n` |
| `DisjointSets.DisjointSet.constructor` | src/ds/disjoint_set.rs:10-15 | allocates two fresh arrays of length `n + 1` with `parent[i] == i` and `rank[i] == 1`, and the invariant holds |
| `DisjointSets.Root` | src/ds/disjoint_set.rs:22-29 | following parent links from `u` ends at an element that is its own parent; the rank strictly grows along the way, so the walk terminates |
| `DisjointSets.RootIsReached` | src/ds/disjoint_set.rs:24-26 | some finite number of parent links leads from `u` to its root |
| `DisjointSets.ReachedRootIsRoot` | src/ds/disjoint_set.rs:24-28 | any root reached from `u` by following links is `Root(u)`, so the answer of `find` is unique |
| `DisjointSets.DisjointSet.Find` | src/ds/disjoint_set.rs:22-29 | the loop returns the root of `u`, an element whose parent link is itself, and modifies nothing (no path compression) |
| `DisjointSets.Merged` | src/ds/disjoint_set.rs:36-54 | merging keeps the rank invariant (every non-root's rank is below its parent's) and the universe size |
| `DisjointSets.MergedRoot` | src/ds/disjoint_set.rs:45-53 | after an effective merge, elements whose root was the absorbed root now have the surviving root; all other roots are unchanged |
| `DisjointSets.MergedPartition` | src/ds/disjoint_set.rs:36-54 | after `merge(u, v)`, `u` and `v` are together, and `x`, `y` are together exactly when they were before or one was with `u` and the other with `v` |
| `DisjointSets.MergedIdempotent` | src/ds/disjoint_set.rs:37-42 | a second `merge(u, v)` changes nothing |
| `DisjointSets.MergedCommutes` | src/ds/disjoint_set.rs:36-54 | `merge(u, v)` and `merge(v, u)` give the same partition |
| `DisjointSets.MergedRewrites` | src/ds/disjoint_set.rs:45-53 | a merge within one group changes nothing; an effective merge rewrites exactly one parent link, that of the lower-rank root (the root of `u` on a tie), and changes only the survivor's rank, by +1 and only on a tie |
| `DisjointSets.MergedRoots` | src/ds/disjoint_set.rs:45-53 | an effective merge removes exactly the absorbed root from the set of roots, so the number of groups drops by one; otherwise the roots stay the same |
| `DisjointSets.MergeAll` | src/ds/disjoint_set.rs:36-54 | any sequence of merges keeps the invariant and never increases the number of roots |
| `DisjointSets.MergeAllKeeps` | src/ds/disjoint_set.rs:36-54 | elements in the same group stay in the same group through any later merges |
| `DisjointSets.MergeAllJoins` | src/ds/disjoint_set.rs:36-54 | after a sequence of merges, both elements of every merged pair share a root, so merges compose transitively |
| `DisjointSets.MergeScenario` | src/ds/disjoint_set.rs:84-113 | on six elements, each of the test's merges joins two groups that were apart, and after the five merges all six elements share one root |
| `DisjointSets.MergeTestMerges` | src/ds/disjoint_set.rs:84-107 | the five merges of the test, applied to the arrays of a new structure, leave all six elements in the group of 0 |
| `DisjointSets.DisjointSet.Merge` | src/ds/disjoint_set.rs:36-54 | updates the arrays in place to exactly `Merged` of the old contents, keeps the invariant, and leaves `u` and `v` with the same root |
| `DisjointSets.MergeTest` | src/ds/disjoint_set.rs:108-112 | after the test's merges, `find` returns one and the same root for all six elements |
| `Math.Euclid` | src/math.rs:2-9 | Euclid's recursion returns 0 exactly when both arguments are 0 |
| `Math.EuclidIsGcd` | src/math.rs:2-9 | the result divides both arguments and every common divisor divides it |
| `Math.Gcd` | src/math.rs:2-9 | the loop computes Euclid's gcd, which is a greatest common divisor, and `gcd(p, 0) == p` |
| `Math.GcdExamples` | src/math.rs:20-28 | `gcd(1,2)==1`, `gcd(2,2)==2`, `gcd(10,19)==1`, `gcd(10,18)==2`, `gcd(10,15)==5`, `gcd(10,20)==10` |
| `Math.Lcm` | src/math.rs:12-14 | when the product fits in an i64 and not both arguments are 0, `lcm(p, q) * gcd(p, q) == p * q` and the result fits in an i64 |
| `Math.LcmIsCommonMultiple` | src/math.rs:12-14 | `lcm(p, q)` is a multiple of `p` and of `q` |
| `Math.LcmIsLeast` | src/math.rs:11-14 | every common multiple of `p` and `q` is a multiple of `lcm(p, q)` |
| `Math.LcmExamples` | src/math.rs:30-38 | `lcm(1,2)==2`, `lcm(2,2)==2`, `lcm(10,19)==190`, `lcm(10,18)==90`, `lcm(10,15)==30`, `lcm(10,20)==20` |

## Left out

- The token scanner `src/usc.rs` is not part of this model. It is input plumbing over a buffered reader, with unchecked UTF-8 and parsing from the standard library.
- Out-of-range arguments to `find` and `merge` make the source panic on an index. Here they are excluded by `requires u < parent.Length` (and the same for `v`).
- DisjointSets.DisjointSet.Merge: ranks are unbounded `nat`, so the `usize` overflow of `rank[v] += 1` is not modelled. Ranks never exceed the number of elements, so it cannot happen in practice.
- DisjointSets.DisjointSet.Find: the Rust method takes `&mut self` but writes nothing. The model reflects what it does: it has no `modifies` clause.
- Math.Gcd: only non-negative arguments are modelled. Rust's `%` truncates toward zero, so negative arguments can give a negative result; the model does not cover that.
- Math.Lcm: only non-negative arguments are modelled; the source also accepts negative ones (it gives `lcm(-2, 3) == -6`, through Rust's truncating `%` in `gcd`). An overflowing `p * q` panics when overflow checks are on and wraps silently in release builds. With both arguments 0 it divides by zero. The model excludes both cases with preconditions.
- The derived `Debug` and `Clone` implementations are not modelled.
- The vectors are public fields in Rust, so a caller could replace them. The model makes the two arrays `const`, because no operation of the structure replaces them.
