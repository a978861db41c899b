/**
 * A closure whose combined shrink tree is infinite.  `combine_go` of
 * src/hh2_tree.rs builds every child before returning a node, with no
 * bound on the depth, so on such a closure it never returns; the lazy
 * tree of src/hh3_lazy_tree.rs only builds the children it is asked for.
 *
 * The closure makes two extractions.  The first generator yields 1, which
 * shrinks to 0.  The second yields 10 with candidates 9 and 8 after a 1,
 * and 5 with the single candidate 4 after anything else.  Once the first
 * value has shrunk to 0, the path of the second call-site was made for the
 * 10-tree and is out of range in the 5-tree, so every further shrink of
 * the second call-site selects the root 5 again, which again has one
 * child: the combined tree repeats itself below that node forever.
 */
module EagerDivergence {
  import opened Options
  import opened RandomSource
  import opened Trees
  import opened LazyTree
  import opened LazyTreeFacts

  function FirstTree(): Tree<nat>
  {
    Node(1, [Node(0, [])])
  }

  function SecondTree(first: nat): Tree<nat>
  {
    if first == 1 then Node(10, [Node(9, []), Node(8, [])]) else Node(5, [Node(4, [])])
  }

  /** The two-extraction closure; its result is the pair of values extracted. */
  function Pair(): Closure<nat, seq<nat>>
  {
    Closure(
      seen => if |seen| == 0 then Some((r: Random, size: nat) => FirstTree())
              else if |seen| == 1 then Some((r: Random, size: nat) => SecondTree(seen[0]))
              else None,
      seen => seen,
      2)
  }

  /** The paths that shrink the first value to 0 and take the second call-site's child 1 and then k times child 0. */
  function Looping(k: nat): seq<TreePath>
  {
    [TreePath([0]), TreePath([1] + seq(k, _ => 0))]
  }

  /** Under the looping paths the closure sees 0 and then the root 5, which has one candidate. */
  lemma LoopingRun(k: nat, r: Random, size: nat)
    ensures var e := Run(Pair(), r, size, Looping(k));
      e.seen == [0, 5] && e.counts == [0, 1]
  {
    var f := Pair();
    var paths := Looping(k);
    var e0 := Extraction(r, [], []);
    var (rest1, child1) := Split(r);
    assert Request(f, e0.seen).Some? && Request(f, e0.seen).value(child1, size) == FirstTree();
    assert Selected(FirstTree(), paths, 0) == Node(0, []);
    var e1 := Extraction(rest1, [0], [0]);
    assert e0.seen + [0] == e1.seen && e0.counts + [0] == e1.counts;
    assert RunFrom(f, size, paths, e0) == RunFrom(f, size, paths, e1);
    var (rest2, child2) := Split(rest1);
    assert Selected(SecondTree(0), paths, 1) == SecondTree(0);
    var e2 := Extraction(rest2, [0, 5], [0, 1]);
    assert RunFrom(f, size, paths, e1) == RunFrom(f, size, paths, e2);
  }

  /** The node for Looping(k) is [0, 5] with a single child, the node for Looping(k + 1). */
  lemma LoopingStep(k: nat, r: Random, size: nat, depth: nat)
    requires depth > 0
    ensures var t := CombineTree(Pair(), r, size, Looping(k), depth);
      t.value == [0, 5] && |t.children| == 1 &&
      t.children[0] == CombineTree(Pair(), r, size, Looping(k + 1), depth - 1)
  {
    LoopingRun(k, r, size);
    CombineRoot(Pair(), r, size, Looping(k), depth);
    CombineChild(Pair(), r, size, Looping(k), depth, 1, 0);
    assert [1] + seq(k, _ => 0) + [0] == [1] + seq(k + 1, _ => 0);
    assert Extend(Pad(Looping(k), 2), 1, 0) == Looping(k + 1);
  }

  /**
   * Below the looping node, the tree built with any depth bound reaches
   * that bound: there is no depth at which an unbounded builder would find
   * no more children.
   */
  lemma {:induction false} LoopingUnbounded(k: nat, r: Random, size: nat, depth: nat)
    requires depth >= 1
    ensures !HeightAtMost(CombineTree(Pair(), r, size, Looping(k), depth), depth - 1)
    decreases depth
  {
    LoopingStep(k, r, size, depth);
    if depth > 1 {
      LoopingUnbounded(k + 1, r, size, depth - 1);
    }
  }

  /** At the root the closure sees 1, with one candidate, and then 10, with two. */
  lemma RootRun(r: Random, size: nat)
    ensures var e := Run(Pair(), r, size, []);
      e.seen == [1, 10] && e.counts == [1, 2]
  {
    var f := Pair();
    var paths: seq<TreePath> := [];
    var (rest1, child1) := Split(r);
    var e0 := Extraction(r, [], []);
    assert Request(f, e0.seen).Some? && Request(f, e0.seen).value(child1, size) == FirstTree();
    assert Selected(FirstTree(), paths, 0) == FirstTree();
    var e1 := Extraction(rest1, [1], [1]);
    assert e0.seen + [1] == e1.seen && e0.counts + [1] == e1.counts;
    assert RunFrom(f, size, paths, e0) == RunFrom(f, size, paths, e1);
    var (rest2, child2) := Split(rest1);
    assert Selected(SecondTree(1), paths, 1) == SecondTree(1);
    var e2 := Extraction(rest2, [1, 10], [1, 2]);
    assert RunFrom(f, size, paths, e1) == RunFrom(f, size, paths, e2);
  }

  /** The paths of the root's third child: the second call-site shrunk to its candidate 1. */
  function ToEight(): seq<TreePath>
  {
    [EmptyPath(), TreePath([1])]
  }

  /** There the closure sees 1, with one candidate, and then 8, with none. */
  lemma ToEightRun(r: Random, size: nat)
    ensures var e := Run(Pair(), r, size, ToEight());
      e.seen == [1, 8] && e.counts == [1, 0]
  {
    var f := Pair();
    var paths := ToEight();
    var (rest1, child1) := Split(r);
    var e0 := Extraction(r, [], []);
    assert Request(f, e0.seen).Some? && Request(f, e0.seen).value(child1, size) == FirstTree();
    assert Selected(FirstTree(), paths, 0) == FirstTree();
    var e1 := Extraction(rest1, [1], [1]);
    assert e0.seen + [1] == e1.seen && e0.counts + [1] == e1.counts;
    assert RunFrom(f, size, paths, e0) == RunFrom(f, size, paths, e1);
    var (rest2, child2) := Split(rest1);
    assert Selected(SecondTree(1), paths, 1) == Node(8, []);
    var e2 := Extraction(rest2, [1, 8], [1, 0]);
    assert RunFrom(f, size, paths, e1) == RunFrom(f, size, paths, e2);
  }

  /** The root has three children; the third shrinks the second value to its candidate 8. */
  lemma RootThirdChild(r: Random, size: nat, depth: nat)
    requires depth >= 1
    ensures var t := CombineTree(Pair(), r, size, [], depth);
      |t.children| == 3 && t.children[2] == CombineTree(Pair(), r, size, ToEight(), depth - 1)
  {
    var paths: seq<TreePath> := [];
    RootRun(r, size);
    CombineRoot(Pair(), r, size, paths, depth);
    CombineChild(Pair(), r, size, paths, depth, 1, 1);
    assert Pad(paths, 2) == [EmptyPath(), EmptyPath()];
    assert EmptyPath().indices + [1] == [1];
    assert Extend(Pad(paths, 2), 1, 1) == ToEight();
    assert Offset([1, 2], 1) + 1 == 2 && Offset([1, 2], 2) == 3;
  }

  /** The node at 8 has one child, which shrinks the first value to 0: the node for Looping(0). */
  lemma EightChild(r: Random, size: nat, depth: nat)
    requires depth >= 1
    ensures var t := CombineTree(Pair(), r, size, ToEight(), depth);
      |t.children| == 1 && t.children[0] == CombineTree(Pair(), r, size, Looping(0), depth - 1)
  {
    ToEightRun(r, size);
    CombineRoot(Pair(), r, size, ToEight(), depth);
    CombineChild(Pair(), r, size, ToEight(), depth, 0, 0);
    assert EmptyPath().indices + [0] == [0];
    assert [1] + seq(0, _ => 0) == [1];
    assert Extend(Pad(ToEight(), 2), 0, 0) == Looping(0);
    assert Offset([1, 0], 0) == 0 && Offset([1, 0], 2) == 1;
  }

  /**
   * Whatever depth bound the builder is given, the combined tree of the
   * closure reaches it (through the root's third child, its only child,
   * and then the looping nodes), so the eager `combine_go`, which has no bound,
   * does not terminate on this closure.
   */
  lemma RootUnbounded(r: Random, size: nat, depth: nat)
    requires depth >= 3
    ensures !HeightAtMost(CombineTree(Pair(), r, size, [], depth), depth - 1)
  {
    RootThirdChild(r, size, depth);
    EightChild(r, size, depth - 1);
    LoopingUnbounded(0, r, size, depth - 2);
  }
}
