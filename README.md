# monad-free, modelled in Dafny

monad-free explores property-based test generators in Rust whose shrinking
is derived from the way a value was generated, without a monad. A
generator (`Gen`) maps a random source and a size to a rose tree of values.
The root is the generated value and the children are its one-step shrinks.
`Gen::combine` turns a closure over a `Chooser` into a generator. The
chooser is a capability to extract values from other generators, and it
records how far each extraction can shrink. `combine_go` then rebuilds the
closure's value with one extraction shrunk by one step, which gives the
children of the combined tree.

This project models:

- **The lazy-tree engine** (`src/hh3_lazy_tree.rs`), in modules `Trees`,
  `LazyTree`, `LazyTreeFacts`, `SingleExtraction` and `LazyGens`:
  - path lookup (`get_path_or_closest`);
  - the chooser (`Chooser::new`, `Chooser::of`) as a class;
  - the tree builder (`combine`, `combine_go`), as a specification
    function and as a method with the source's padding and nested loops;
  - the integer shrink rule (`shrink_u64`) and the derived generators
    `u64`, `usize`, `choose` and `vec`.
- **The strict-tree prototype** (`src/hh2_tree.rs`), in module
  `StrictTree`. It runs the same algorithm with eagerly built children.
  Where the combined tree is finite, the children are the same either
  way, so it shares the engine. Where the tree is infinite, the eager
  builder never returns; module `EagerDivergence` exhibits such a closure
  (see Findings). Its own `shrink_u64` has the midpoint candidate
  switched off.
- **Non-deterministic enumeration** (`src/nondet.rs`), in modules `NonDet`
  and `NonDetExample`:
  - `incr_choice_indices`, an odometer over mixed-radix choice vectors,
    proved against a rank/unrank reading of the vectors;
  - `Witness::of`;
  - `combine`, which runs its closure once per choice vector in
    lexicographic order;
  - the repository's unit test.
- **Non-empty vectors** (`src/nonempty.rs`) and **state threading**
  (`src/state.rs`).
- **The first, tree-less prototype** (`src/hh1_no_tree.rs`), in module
  `NoTree`: the shrink-budget split `shrink_vec`, `Extract::new`,
  `Extract::of` and the count probe of `Gen::of`. Three defects in it are
  listed under Findings, each next to a corrected version.

The random source (`src/random.rs`) is a deterministic stand-in
(`RandomSource`):

- a draw lies in the requested range;
- a split returns the advanced parent and a child, built as the source
  builds it (perturbed state, increment plus 2);
- on an odd stream, two consecutive splits hand out different children.

A user closure `Fn(&mut Chooser) -> A` is modelled as a `Closure`:

- given the values extracted so far, it names the next generator to
  extract from, or stops;
- it builds its result from the extracted values;
- call-sites are positional, as in the source (the n-th extraction uses
  path n);
- the closures of `NonDet::combine`, `State::combine` and `Gen::of` are
  modelled as `Script`s, i.e. fixed lists of extractions.

## Model

| member | source | states |
|---|---|---|
| Trees.EmptyPath | src/hh3_lazy_tree.rs:42-44 | the empty path has no indices |
| Trees.GetPathOrClosest | src/hh3_lazy_tree.rs:19-32 | the loop that reassigns `here` returns the lookup `Resolve`; for the empty path that is the tree itself; the eager walk of src/hh2_tree.rs:18-29 is the same |
| Trees.ResolveValid | src/hh3_lazy_tree.rs:22-25 | when every index is in range, the lookup returns the node at that path |
| Trees.ResolveClosest | src/hh3_lazy_tree.rs:22-29 | the lookup never fails: it returns the node at the longest valid prefix of the path, and the next index, if any, is out of range there |
| Trees.ResolveKeeps | src/hh3_lazy_tree.rs:19-32 | the lookup returns a node of the tree, so a property shared by all nodes holds of it |
| RandomSource.U64Range | src/random.rs:20-22 | a draw from [lo, hi) lies in that range |
| RandomSource.Split | src/random.rs:32-42 | the child's increment is the parent's plus 2, so it stays odd, and the child differs from the parent before and after the split |
| RandomSource.SplitTwiceDiffers | src/random.rs:23-27 | on an odd stream, two consecutive splits give two different children, each different from the advanced parent, and every stream stays odd |
| LazyTree.Chooser.constructor | src/hh3_lazy_tree.rs:156-161 | a new chooser holds the source, size and paths and has recorded nothing |
| LazyTree.Chooser.Of | src/hh3_lazy_tree.rs:163-181 | the source is split and the generator runs on the child; call-site k (k = extractions so far) resolves against path k, or the root when there is none; exactly that node's child count is appended and its value is returned; size and paths are unchanged; src/hh2_tree.rs:152-167 does the same over eager children |
| LazyTree.RunClosure | src/hh3_lazy_tree.rs:102-103 | running the closure against a fresh chooser leaves the chooser's source and child counts as the specification `Run` says, and returns the closure's result on the extracted values |
| LazyTree.Pad | src/hh3_lazy_tree.rs:105-109 | padding keeps the given paths and adds empty paths up to the number of extractions, never shortening |
| LazyTree.CombineTree | src/hh3_lazy_tree.rs:97-135 | the tree `combine_go` builds, cut at the depth bound: no chain of shrinks from its root is longer than the bound |
| LazyTree.Combine | src/hh3_lazy_tree.rs:88-95 | `combine` starts the builder from no paths, so its trees are at most as deep as the bound |
| LazyTree.PadPaths | src/hh2_tree.rs:98-102 | the padding loop computes `Pad` |
| LazyTree.CombineGo | src/hh3_lazy_tree.rs:97-135 | the builder (fresh chooser, padding, nested loops over call-sites and their children, recursive calls) computes the specification tree `CombineTree`; the eager builder of src/hh2_tree.rs:90-124 has the same loops and result |
| LazyTreeFacts.ChildPathsCount | src/hh3_lazy_tree.rs:116-127 | the child path vectors of the first n call-sites number the sum of their child counts |
| LazyTreeFacts.ChildPathsAt | src/hh3_lazy_tree.rs:116-127 | child j of call-site i sits at position counts[0] + ... + counts[i-1] + j: call-site-major, then by child index |
| LazyTreeFacts.ExtendOnlyChanges | src/hh3_lazy_tree.rs:123-124 | a child's paths differ from the parent's only at call-site i, whose path gains index j |
| LazyTreeFacts.CombineRoot | src/hh3_lazy_tree.rs:102-103 | the root holds the closure's result and has as many children as the recorded child counts add up to |
| LazyTreeFacts.CombineChild | src/hh3_lazy_tree.rs:116-127 | child (i, j) is the tree rebuilt from the same source and size with the padded paths extended at call-site i by j; the same order and paths in src/hh2_tree.rs:104-119 |
| LazyTreeFacts.RunStops | src/hh3_lazy_tree.rs:102-103 | a closure run stops exactly when the closure asks for no more, and it asked at every step before |
| LazyTreeFacts.RunTrailingEmpty | src/hh3_lazy_tree.rs:169-173 | an empty path selects the root, exactly as a missing path does, so an extra empty path changes no extraction |
| LazyTreeFacts.EmptyPathsImplicit | src/hh3_lazy_tree.rs:105-109 | padding with an empty path changes nothing in the tree built |
| SingleExtraction.SingleRun | src/hh3_lazy_tree.rs:221-224 | a closure making one extraction extracts once, from the node its path selects in the tree drawn from the first split |
| SingleExtraction.SingleExtract | src/hh3_lazy_tree.rs:97-135 | combining a single extraction with path p rebuilds the extracted tree below p, values transformed: the derived generator inherits the shrinks |
| SingleExtraction.SingleExtractRoot | src/hh3_lazy_tree.rs:88-95 | from the root, `combine` of a single extraction is the mapped tree of the extracted generator |
| LazyGens.ShrinkU64 | src/hh3_lazy_tree.rs:201-217 | the root is the value itself, and it has no candidate exactly when it equals the start of the range |
| LazyGens.ShrinkU64Candidates | src/hh3_lazy_tree.rs:201-217 | with delta = value - start: delta > 4 gives exactly [start + delta/2, value - 1]; 0 < delta <= 4 gives exactly [value - 1]; delta = 0 gives none |
| LazyGens.ShrinkU64Within | src/hh3_lazy_tree.rs:205-213 | every candidate lies between start and the value, in [start, hi) when the value does |
| LazyGens.ShrinkU64Shrinks | src/hh3_lazy_tree.rs:205-213 | every candidate is strictly smaller than the value it shrinks |
| LazyGens.ShrinkU64CountsDown | src/hh3_lazy_tree.rs:208-211 | following the last candidate counts down one at a time and reaches start in exactly delta steps |
| LazyGens.U64 | src/hh3_lazy_tree.rs:189-199 | the root of a `u64` tree is the value drawn from the generator's own source, in [lo, hi) |
| LazyGens.U64Tree | src/hh3_lazy_tree.rs:189-199 | `u64` draws its root in [lo, hi); every node stays in range, shrinks strictly, and the last-candidate chain ends at lo |
| LazyGens.Usize | src/hh3_lazy_tree.rs:219-225 | `usize` yields exactly the `u64` tree drawn from the chooser's first split, shrinks included |
| LazyGens.ChosenIndex | src/hh3_lazy_tree.rs:232 | the index `choose` draws is within the vector |
| LazyGens.Choose | src/hh3_lazy_tree.rs:229-235 | the `choose` tree is the index shrink tree with each index replaced by its element |
| LazyGens.PickedValues | src/hh3_lazy_tree.rs:229-235 | that tree's root is the element at the drawn index, every node is an element at or before it, and the last-candidate chain walks back through the vector to its first element |
| LazyGens.VecClosure | src/hh3_lazy_tree.rs:237-246 | the closure extracts the length first, then asks for an element exactly while fewer than that length have been extracted, within the bound |
| LazyGens.Vec | src/hh3_lazy_tree.rs:237-246 | the root vector has exactly the length drawn from the chooser's first split, when that length is within the bound |
| LazyGens.VecLength | src/hh3_lazy_tree.rs:237-246 | the first extraction is the length, from the length generator; within the bound the vector holds exactly that many elements, the values extracted after it |
| LazyGens.LazyTreeRepeats | src/hh2_tree.rs:192-194 | the lazy tree offers the same value twice (5 below 10, as midpoint and after five decrements), which the midpoint switched off in the strict version avoids |
| StrictTree.ShrinkU64 | src/hh2_tree.rs:187-203 | the root is the value; a value above the start has exactly one candidate, one below it, and the start has none |
| StrictTree.ShrinkU64Chain | src/hh2_tree.rs:187-203 | the strict tree is a chain of delta + 1 nodes counting down from the value to start |
| StrictTree.ShrinkU64DropsMidpoints | src/hh2_tree.rs:190-196 | its chain is the decrement chain of the lazy tree, which also offers midpoints |
| StrictTree.U64 | src/hh2_tree.rs:174-185 | the root of a strict `u64` tree is the value drawn from the generator's own source, in [lo, hi) |
| StrictTree.Usize | src/hh2_tree.rs:205-211 | strict `usize` yields exactly the strict `u64` tree of the first split |
| StrictTree.Choose | src/hh2_tree.rs:215-221 | the strict `choose` tree is the strict index chain mapped to the elements |
| StrictTree.PickedChain | src/hh2_tree.rs:215-221 | that tree is a chain from the element at the drawn index back through the vector to its first element |
| NonEmptyVec.Len | src/nonempty.rs:18-20 | the length is never zero |
| NonEmptyVec.Index | src/nonempty.rs:10-16 | position 0 is the first element and position i > 0 is element i - 1 of the rest |
| NonEmptyVec.IndexPush | src/nonempty.rs:10-16 | pushing onto the rest keeps every position and adds one at the end |
| NonEmptyVec.ToVec | src/nonempty.rs:22-29 | the vector has the length `len` gives and holds at each position what `index` returns there |
| NonDet.Resize | src/nondet.rs:79-80 | the copy has the count's length, keeps the given indices and reads missing ones as 0 |
| NonDet.Incr | src/nondet.rs:77-95 | the increment keeps the length, and steps an in-range vector to an in-range vector |
| NonDet.IncrOverflow | src/nondet.rs:83-94 | there is no next vector exactly when every digit is at its last value |
| NonDet.IncrChoiceIndices | src/nondet.rs:77-95 | the reverse carry loop computes the odometer step `Incr` of the zero-padded indices |
| NonDet.Unrank | src/nondet.rs:69 | the k-th vector in lexicographic order has every index below its count |
| NonDet.RankBound | src/nondet.rs:69 | a vector's lexicographic position is below the number of vectors |
| NonDet.UnrankRank | src/nondet.rs:69 | reading back the position of a vector gives the vector |
| NonDet.RankUnrank | src/nondet.rs:69 | the position of the k-th vector is k |
| NonDet.IncrRank | src/nondet.rs:83-94 | the increment is `None` exactly at the last vector; otherwise it returns an in-range vector one position further |
| NonDet.IncrNext | src/nondet.rs:83-94 | the increment is the lexicographic successor, or `None` after the last vector |
| NonDet.UnrankZero | src/nondet.rs:44-48 | the first vector in the order is all zeros |
| NonDet.IncrDocExample | src/nondet.rs:69-76 | over counts [3, 2, 1] the increments go [0,0,0], [0,1,0], [1,0,0], [1,1,0], [2,0,0], [2,1,0], then `None` |
| NonDet.Witness.constructor | src/nondet.rs:47 | a new witness has no indices and no counts |
| NonDet.Witness.Of | src/nondet.rs:100-118 | extraction k takes `indices[k]`, or 0 when missing; the choice count is appended and the indices are unchanged |
| NonDet.RunScript | src/nondet.rs:55-59 | a closure run under the witness records every count and returns the closure's result on the picked choices |
| NonDet.PicksFirst | src/nondet.rs:44-48 | an empty index vector picks what the all-zero vector picks |
| NonDet.StepNext | src/nondet.rs:54 | the increment of the vector at position p is the vector at p + 1, or `None` after the last one |
| NonDet.PushOutcome | src/nondet.rs:61-62 | pushing the next vector's result keeps the results in lexicographic order |
| NonDet.RunAt | src/nondet.rs:55-59 | the run under the vector at position p yields result p |
| NonDet.FirstFollowing | src/nondet.rs:47-54 | the first increment, from empty indices, gives the vector at position 1 |
| NonDet.FirstProduced | src/nondet.rs:47-51 | the first result is the outcome of the all-zero vector |
| NonDet.FirstRun | src/nondet.rs:47-54 | the first run records the counts, stores result 0 and prepares the vector at position 1 |
| NonDet.NextRun | src/nondet.rs:54-63 | each later run stores the result of the next position and prepares the one after |
| NonDet.Combine | src/nondet.rs:40-67 | `combine` yields one result per choice vector (the product of the counts), the k-th being the closure's result under the k-th vector in lexicographic order |
| NonDetExample.NumbersDigits | src/nondet.rs:136-144 | the k-th vector over counts [4, 3, 2] holds the mixed-radix digits of k |
| NonDetExample.NumbersOutcome | src/nondet.rs:136-146 | the example's k-th result is the number written with those digits |
| NonDetExample.ExpectedAt | src/nondet.rs:147-153 | the expected list, position by position, is that number |
| NonDetExample.NumbersOutcomes | src/nondet.rs:134-153 | there are 24 outcomes and they are exactly the expected list |
| NonDetExample.NumbersTest | src/nondet.rs:134-153 | combining the example and converting to a vector gives the expected list |
| StateComputations.Witness.constructor | src/state.rs:35 | the witness starts with the input state |
| StateComputations.Witness.Of | src/state.rs:46-52 | the current state becomes the computation's new state and its result is returned |
| StateComputations.Combined | src/state.rs:31-39 | the computation `combine` builds; with no extraction it returns the input state and the closure's result on no values |
| StateComputations.RunCombined | src/state.rs:31-39 | the witness's final state and the closure's result are those of threading the steps in order |
| StateComputations.NoStepsKeepState | src/state.rs:34-38 | a closure making no extraction returns the input state unchanged |
| StateComputations.ThreadSnoc | src/state.rs:46-52 | one more extraction runs on the state the earlier ones left and appends its result |
| StateComputations.TwoSteps | src/state.rs:46-52 | two extractions in a row: the second runs on the state the first produced |
| StateComputations.ThreadAppend | src/state.rs:31-39 | running two step lists one after the other is running their concatenation |
| StateComputations.Inline | src/state.rs:31-39 | extracting a combined computation inside another closure is the same as inlining its extractions |
| NoTree.ShrinkVec | src/hh1_no_tree.rs:69-84 | `None` (the division panic) exactly when count is 0; otherwise the budgets as written |
| NoTree.AsWrittenShares | src/hh1_no_tree.rs:69-84 | as written: count budgets of the parent's size; exactly the one at position shrinks % count is above the quotient |
| NoTree.FairShares | src/hh1_no_tree.rs:69-84 | as intended: count budgets of the parent's size; exactly those below the remainder are above the quotient; none for count 0 |
| NoTree.AsWrittenSharesShape | src/hh1_no_tree.rs:72-83 | count entries, each of the parent's size, each the quotient, plus 1 exactly at position shrinks % count |
| NoTree.AsWrittenSharesTotal | src/hh1_no_tree.rs:72-80 | as written, the budgets add up to quotient * count + 1, equal to the parent's steps only when the remainder is 1 |
| NoTree.AsWrittenInventsStep | src/hh1_no_tree.rs:76 | two call-sites sharing 0 steps are granted 1 step as written |
| NoTree.ShrinkVecFair | src/hh1_no_tree.rs:69-84 | the corrected loop computes `FairShares` |
| NoTree.FairSharesTotal | src/hh1_no_tree.rs:72-80 | the corrected budgets add up to the parent's steps, each the quotient or one more, the larger ones first |
| NoTree.Extract.constructor | src/hh1_no_tree.rs:60-67 | `Extract::new` plans the budgets with `shrink_vec` (count > 0), with index 0 |
| NoTree.Extract.Planned | src/hh1_no_tree.rs:60-67 | the same with the corrected budgets |
| NoTree.Extract.Of | src/hh1_no_tree.rs:87-105 | as written: it panics unless index < planned count, appends the parent's budget, hands it to the generator on the child of a split, and advances the index |
| NoTree.Extract.OfPlanned | src/hh1_no_tree.rs:87-105 | with the comparison corrected and no opening assertion: a planned budget is handed out and nothing is appended; an unplanned extraction gets the parent's budget, which is appended |
| NoTree.RepeatTotal | src/hh1_no_tree.rs:91-96 | handing each of n call-sites the whole budget grants n times its steps |
| NoTree.ProbeCount | src/hh1_no_tree.rs:22-33 | the counting run as written: it panics exactly when the expected count is 0; otherwise it counts the expected budgets plus one per extraction |
| NoTree.GenOfProbe | src/hh1_no_tree.rs:17-33 | the probe expects 0 call-sites, so it always panics and no count is obtained |
| NoTree.ProbeCountPlanned | src/hh1_no_tree.rs:22-33 | with the corrected `shrink_vec` and `Extract::of`: the count is the larger of the expected count and the number of extractions |
| NoTree.GenOfProbePlanned | src/hh1_no_tree.rs:17-33 | the corrected probe counts exactly the closure's extractions |
| NoTree.RunOf | src/hh1_no_tree.rs:35-38 | the generator panics when the closure makes no extraction; otherwise it runs each extraction in order on its own child source, each with the parent's whole budget |
| NoTree.RunOfPlanned | src/hh1_no_tree.rs:35-38 | the corrected generator hands each extraction its fair share |
| EagerDivergence.LoopingStep | src/hh2_tree.rs:104-119 | for the two-extraction closure, the node whose second path is out of range in the 5-tree holds [0, 5] and has a single child, the same node with that path one index longer |
| EagerDivergence.LoopingUnbounded | src/hh2_tree.rs:90-124 | below that node, the tree built with any depth bound reaches the bound |
| EagerDivergence.RootThirdChild | src/hh2_tree.rs:104-119 | the root has three children; the third shrinks the second value to 8 |
| EagerDivergence.EightChild | src/hh2_tree.rs:104-119 | that node's only child shrinks the first value to 0 and is the first looping node |
| EagerDivergence.RootUnbounded | src/hh2_tree.rs:90-124 | from the root, the tree reaches every depth bound it is given, so the unbounded eager builder does not return |

## Left out

- Laziness, `Rc` sharing and cost are not modelled. Trees are finite values, cut at a depth bound. Down to that bound, a child list built lazily cannot be told apart from one built eagerly, so the lazy and strict builders share one model. Forcing children only to count them is not modelled. An infinite combined tree exists (module `EagerDivergence`). It is fine for the lazy builder, but the eager one does not return on it (Findings).
- LazyTree.CombineTree: builds the tree only down to a given depth (fuel). Tree depth is unbounded in the source, because a path invalidated by an earlier shrink keeps resolving to the same node. `usize` and `choose` pass a depth that bounds their shrink chains (`hi - lo` and the vector length), so for them nothing is cut (LazyGens.Usize, LazyGens.Choose).
- LazyTree.Combine: its own contract states only the depth bound, a property of the fuel and not of `Gen::combine`. What the combined tree contains is stated by LazyTreeFacts.CombineRoot, LazyTreeFacts.CombineChild and SingleExtraction.SingleExtractRoot.
- LazyGens.Vec: `depth` is fuel chosen by the caller, and the shrink tree is cut at that depth. No depth bounds `vec`'s shrink chains in general, because the element generator is arbitrary and the shrinks of the length and of every element add up. Only the root vector is specified (its length, and through LazyGens.VecLength its elements); the shrinks below it are not.
- A modelled closure's requests are capped by its `bound`, so that every run terminates; the source has no such cap.
- The closures of `NonDet::combine`, `State::combine` and `Gen::of` are modelled as fixed lists of extractions (`Script`), not data-dependent control flow. For nondet this fixes the choice counts, which the source only observes.
- `vec` is modelled over `nat` elements, with `maxLen` bounding the length a run may announce.
- Integer widths (`u64`, `usize`) are unbounded `nat`, and the `as` casts between them are the identity. The `u64` subtraction in `shrink_u64` becomes the precondition `start <= value`.
- The PCG output permutation, the 128-bit state arithmetic and the statistical quality of splitting are not modelled. The source is a plain deterministic step with the range and split properties above.
- `Random::new`, `Random::new_from_seed`, `Gen::new` and `NonDet::new`/`State::new` are plain wrappers and have no members of their own.
- The borrow-checker guarantee that a chooser or witness cannot escape its closure is not modelled; each run gets a fresh object.
- `usize_range` and `choose` of `src/hh1_no_tree.rs`, and src/main.rs (a demo driver with printing and timing), are not part of this model.
- NonEmptyVec.Index: the panic of `NonEmpty::index` past the end (src/nonempty.rs:10-16) is the precondition `ix < Len(n)`.
- NonDet.Witness.Of and NoTree.Extract.Of: the index panics (`NonEmpty::index` past the end, the `index < len` assertion) are preconditions.
- LazyGens.U64: an empty range, which panics in `Rand64::rand_range` under `Random::u64_range` (src/random.rs:21), is excluded by the precondition `lo < hi`.
- LazyGens.Usize: the same precondition `lo < hi`, for the `u64` range it extracts from.
- StrictTree.U64: the same precondition `lo < hi` as LazyGens.U64.
- StrictTree.Usize: the same precondition `lo < hi` as LazyGens.Usize.
- LazyGens.Choose: an empty vector, whose `usize(0..0)` panics when run (src/hh3_lazy_tree.rs:232), is excluded by the precondition `|v| > 0`.
- StrictTree.Choose: the same precondition `|v| > 0` (src/hh2_tree.rs:218).
- NoTree.Extract.constructor: the division by a count of 0 in `shrink_vec` (src/hh1_no_tree.rs:72) is the precondition `expectedCount > 0`; the callers ProbeCount and RunOf check the count first, through ShrinkVec, and return `None` for the panic.

## Findings

| source | as written | input that shows it | evidently intended | confidence | as-written member | corrected member |
|---|---|---|---|---|---|---|
| src/hh1_no_tree.rs:76 | only the entry at position `shrinks % count` gets the extra step, so the budgets add up to `quotient * count + 1` | shrinks 0, count 2: budgets 1 and 0, one step granted from none | every entry below the remainder gets one more, so the budgets add up to `shrinks` | medium, not executed | NoTree.AsWrittenSharesTotal | NoTree.FairSharesTotal |
| src/hh1_no_tree.rs:91 | `len < ix` can never hold after the assertion at :88, so the planned budget is never read; every call appends the parent's whole budget and hands it out | any closure with 2 extractions: each gets the parent's full budget, 2 × shrinks in total | `ix < len`, handing out the planned budget of this call-site | high, not executed | NoTree.RunOf | NoTree.RunOfPlanned |
| src/hh1_no_tree.rs:22-33 | the probe builds an `Extract` expecting 0 call-sites, whose `shrink_vec` divides by 0 at :72; even with a positive count, each `of` appends a budget, so the count would be off by the expected count | any closure passed to `Gen::of` | no budgets planned for 0 call-sites, and `of` hands an unplanned extraction the parent's budget, so the probe counts exactly the closure's extractions | high, not executed | NoTree.ProbeCount | NoTree.GenOfProbePlanned |
| src/hh2_tree.rs:104-119 | `combine_go` builds every child eagerly and recursively, with no depth bound | the closure extracting 1 (shrinking to 0), then Node(10, [9, 8]) after a 1 and Node(5, [4]) otherwise; from the root's third child, the paths [[0], [1, 0, ..., 0]] lead to themselves with one more 0, forever | a builder that returns: children built on demand as src/hh3_lazy_tree.rs does, or a bound on the depth | high, not executed | EagerDivergence.RootUnbounded | LazyTree.CombineGo |
