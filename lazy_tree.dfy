/**
 * The generator engine of src/hh3_lazy_tree.rs: generators, the Chooser
 * extraction capability, and the recursive tree builder behind
 * `Gen::combine`.  src/hh2_tree.rs runs the same algorithm with eagerly
 * built children; where the combined tree is finite the children are the
 * same either way, so both are modelled here.  The builder takes a depth
 * bound: below it no children are built, which makes every tree finite
 * (module EagerDivergence shows a closure whose unbounded tree is not).
 *
 * A closure `Fn(&mut Chooser) -> A` is modelled by what it does with the
 * chooser: given the values extracted so far, it either asks for one more
 * extraction from some generator or stops, and it then builds its result
 * from the extracted values.  Call-sites are positional: the n-th request
 * is call-site n.  `bound` caps the number of requests of one run.
 */
module LazyTree {
  import opened Options
  import opened RandomSource
  import opened Trees

  /** `Gen<A>`: from a random source and a size to a shrink tree. */
  type Gen<V> = (Random, nat) -> Tree<V>

  datatype Closure<!V, A> = Closure(next: seq<V> -> Option<Gen<V>>, finish: seq<V> -> A, bound: nat)

  /** The generator the closure extracts from after having seen `seen`, if any. */
  function Request<V, A>(f: Closure<V, A>, seen: seq<V>): Option<Gen<V>>
  {
    if |seen| < f.bound then f.next(seen) else None
  }

  /** The node call-site `ix` uses: its tree resolved against its input path, or the root when it has none. */
  function Selected<V>(tree: Tree<V>, paths: seq<TreePath>, ix: nat): Tree<V>
  {
    if ix < |paths| then Resolve(tree, paths[ix].indices) else tree
  }

  /**
   * `Chooser`: owns a random source, the size, the input paths (one per
   * call-site) and records the child count of every node it hands out.
   */
  class Chooser {
    var rand: Random
    const size: nat
    const genPaths: seq<TreePath>
    var genChildCount: seq<nat>

    /** `Chooser::new`: nothing extracted yet. */
    constructor (rand: Random, size: nat, genPaths: seq<TreePath>)
      ensures this.rand == rand && this.size == size && this.genPaths == genPaths
      ensures genChildCount == []
    {
      this.rand := rand;
      this.size := size;
      this.genPaths := genPaths;
      genChildCount := [];
    }

    /**
     * `Chooser::of`: runs the generator on a split of the chooser's source,
     * resolves the tree against the path of this call-site (the k-th call
     * uses path k, or the root when there is none), records that node's
     * child count and returns its value.
     */
    method Of<V>(gen: Gen<V>) returns (v: V)
      modifies this
      ensures rand == Split(old(rand)).0
      ensures var node := Selected(gen(Split(old(rand)).1, size), genPaths, |old(genChildCount)|);
        genChildCount == old(genChildCount) + [|node.children|] && v == node.value
    {
      var (rest, childRand) := Split(rand);
      rand := rest;
      var tree := gen(childRand, size);
      var ix := |genChildCount|;
      var shrunk := tree;
      if ix < |genPaths| {
        shrunk := GetPathOrClosest(tree, genPaths[ix]);
      }
      genChildCount := genChildCount + [|shrunk.children|];
      v := shrunk.value;
    }
  }

  /** What one run of a closure has done so far: the chooser's source, the values extracted and the child counts recorded. */
  datatype Extraction<V> = Extraction(rand: Random, seen: seq<V>, counts: seq<nat>)

  /** The rest of a closure run from an intermediate state, one extraction at a time. */
  function RunFrom<V, A>(f: Closure<V, A>, size: nat, paths: seq<TreePath>, e: Extraction<V>): (res: Extraction<V>)
    requires |e.seen| == |e.counts|
    ensures |res.seen| == |res.counts| && |e.seen| <= |res.seen|
    decreases f.bound - |e.seen|
  {
    match Request(f, e.seen)
    case None => e
    case Some(g) =>
      var (rest, child) := Split(e.rand);
      var node := Selected(g(child, size), paths, |e.counts|);
      RunFrom(f, size, paths, Extraction(rest, e.seen + [node.value], e.counts + [|node.children|]))
  }

  /** A whole closure run with a fresh chooser. */
  function Run<V, A>(f: Closure<V, A>, r: Random, size: nat, paths: seq<TreePath>): (e: Extraction<V>)
    ensures |e.seen| == |e.counts|
  {
    RunFrom(f, size, paths, Extraction(r, [], []))
  }

  /** Runs the closure against the chooser: each request is one `Chooser::of` call. */
  method RunClosure<V, A>(f: Closure<V, A>, c: Chooser) returns (value: A)
    requires c.genChildCount == []
    modifies c
    ensures var e := Run(f, old(c.rand), c.size, c.genPaths);
      c.rand == e.rand && c.genChildCount == e.counts && value == f.finish(e.seen)
  {
    ghost var e := Run(f, c.rand, c.size, c.genPaths);
    var seen: seq<V> := [];
    var req := Request(f, seen);
    while req.Some?
      invariant |seen| == |c.genChildCount|
      invariant req == Request(f, seen)
      invariant RunFrom(f, c.size, c.genPaths, Extraction(c.rand, seen, c.genChildCount)) == e
      decreases f.bound - |seen|
    {
      var v := c.Of(req.value);
      seen := seen + [v];
      req := Request(f, seen);
    }
    value := f.finish(seen);
  }

  /** The input paths padded with empty paths up to n entries. */
  function Pad(paths: seq<TreePath>, n: nat): (p: seq<TreePath>)
    ensures |p| == if |paths| < n then n else |paths|
    ensures p[..|paths|] == paths
    ensures forall i :: |paths| <= i < |p| ==> p[i] == EmptyPath()
  {
    if |paths| < n then paths + seq(n - |paths|, _ => EmptyPath()) else paths
  }

  /** The paths of a child: call-site i shrunk by one more step, to its child j; all other call-sites unchanged. */
  function Extend(paths: seq<TreePath>, i: nat, j: nat): seq<TreePath>
    requires i < |paths|
  {
    paths[i := TreePath(paths[i].indices + [j])]
  }

  /** The child path vectors of call-site i, for its children 0 .. n-1. */
  function Row(paths: seq<TreePath>, i: nat, n: nat): (row: seq<seq<TreePath>>)
    requires i < |paths|
    ensures |row| == n && forall j :: 0 <= j < n ==> row[j] == Extend(paths, i, j)
  {
    seq(n, j requires 0 <= j => Extend(paths, i, j))
  }

  lemma RowSnoc(paths: seq<TreePath>, i: nat, n: nat)
    requires i < |paths|
    ensures Row(paths, i, n + 1) == Row(paths, i, n) + [Extend(paths, i, n)]
  {
  }

  /** The child path vectors of call-sites 0 .. n-1, call-site-major, then by child index. */
  function ChildPathsUpTo(paths: seq<TreePath>, counts: seq<nat>, n: nat): seq<seq<TreePath>>
    requires n <= |counts| <= |paths|
  {
    if n == 0 then []
    else ChildPathsUpTo(paths, counts, n - 1) + Row(paths, n - 1, counts[n - 1])
  }

  function ChildPaths(paths: seq<TreePath>, counts: seq<nat>): seq<seq<TreePath>>
    requires |counts| <= |paths|
  {
    ChildPathsUpTo(paths, counts, |counts|)
  }

  /** counts[0] + ... + counts[n-1]: where the children of call-site n start. */
  function Offset(counts: seq<nat>, n: nat): nat
    requires n <= |counts|
  {
    if n == 0 then 0 else Offset(counts, n - 1) + counts[n - 1]
  }

  /**
   * `combine_go` as a function: the root holds the closure's value for the
   * given paths; its children rebuild the tree with one call-site shrunk by
   * one step, in call-site-major order, with the same source and size.
   * Below `depth` levels no children are built, so no chain of shrinks
   * from the root is longer than `depth`.
   */
  function CombineTree<V, A>(f: Closure<V, A>, r: Random, size: nat, paths: seq<TreePath>, depth: nat): (t: Tree<A>)
    ensures HeightAtMost(t, depth)
    decreases depth, 0
  {
    var e := Run(f, r, size, paths);
    var padded := Pad(paths, |e.counts|);
    if depth == 0 then Node(f.finish(e.seen), [])
    else
      var kids := ChildPaths(padded, e.counts);
      var ts := Subtrees(f, r, size, kids, depth - 1);
      assert forall k :: 0 <= k < |ts| ==> ts[k] == CombineTree(f, r, size, kids[k], depth - 1);
      Node(f.finish(e.seen), ts)
  }

  /** The trees built for a list of path vectors. */
  function Subtrees<V, A>(f: Closure<V, A>, r: Random, size: nat, kids: seq<seq<TreePath>>, depth: nat): (ts: seq<Tree<A>>)
    ensures |ts| == |kids|
    decreases depth, 1
  {
    seq(|kids|, k requires 0 <= k < |kids| => CombineTree(f, r, size, kids[k], depth))
  }

  /** `Gen::combine`: the tree builder started from no paths at all; its trees are at most `depth` deep. */
  function Combine<V, A>(f: Closure<V, A>, depth: nat): (g: Gen<A>)
    ensures forall r: Random, size: nat :: HeightAtMost(g(r, size), depth)
  {
    (r: Random, size: nat) => CombineTree(f, r, size, [], depth)
  }

  lemma SubtreesSnoc<V, A>(f: Closure<V, A>, r: Random, size: nat, kids: seq<seq<TreePath>>, p: seq<TreePath>, depth: nat)
    ensures Subtrees(f, r, size, kids + [p], depth) == Subtrees(f, r, size, kids, depth) + [CombineTree(f, r, size, p, depth)]
  {
    var a := Subtrees(f, r, size, kids + [p], depth);
    var b := Subtrees(f, r, size, kids, depth) + [CombineTree(f, r, size, p, depth)];
    assert forall k :: 0 <= k < |a| ==> a[k] == b[k];
  }

  /** The padding loop of `combine_go`: empty paths are pushed until there is one per call-site. */
  method PadPaths(paths: seq<TreePath>, n: nat) returns (padded: seq<TreePath>)
    ensures padded == Pad(paths, n)
  {
    padded := paths;
    while |padded| < n
      invariant |paths| <= |padded| <= if |paths| < n then n else |paths|
      invariant padded[..|paths|] == paths
      invariant forall i :: |paths| <= i < |padded| ==> padded[i] == EmptyPath()
    {
      padded := padded + [EmptyPath()];
    }
  }

  /** Building one more child of call-site i extends the children built so far by its tree. */
  lemma ChildStep<V, A>(f: Closure<V, A>, r: Random, size: nat, done: seq<seq<TreePath>>, paths: seq<TreePath>, i: nat, n: nat, depth: nat)
    requires i < |paths|
    ensures Subtrees(f, r, size, done + Row(paths, i, n + 1), depth) ==
      Subtrees(f, r, size, done + Row(paths, i, n), depth) + [CombineTree(f, r, size, Extend(paths, i, n), depth)]
  {
    RowSnoc(paths, i, n);
    assert done + Row(paths, i, n + 1) == done + Row(paths, i, n) + [Extend(paths, i, n)];
    SubtreesSnoc(f, r, size, done + Row(paths, i, n), Extend(paths, i, n), depth);
  }

  /**
   * `Gen::combine_go`: runs the closure with a fresh chooser, pads the
   * paths with empty paths up to the number of call-sites used, then
   * builds one child per call-site and per child of its selected node.
   */
  method CombineGo<V, A>(f: Closure<V, A>, r: Random, size: nat, paths: seq<TreePath>, depth: nat) returns (t: Tree<A>)
    ensures t == CombineTree(f, r, size, paths, depth)
    decreases depth
  {
    var c := new Chooser(r, size, paths);
    var value := RunClosure(f, c);
    var counts := c.genChildCount;

    var padded := PadPaths(paths, |counts|);

    var children: seq<Tree<A>> := [];
    if depth > 0 {
      for genIx := 0 to |counts|
        invariant children == Subtrees(f, r, size, ChildPathsUpTo(padded, counts, genIx), depth - 1)
      {
        ghost var done := ChildPathsUpTo(padded, counts, genIx);
        for childIx := 0 to counts[genIx]
          invariant children == Subtrees(f, r, size, done + Row(padded, genIx, childIx), depth - 1)
        {
          var pathsCopy := padded[genIx := TreePath(padded[genIx].indices + [childIx])];
          var child := CombineGo(f, r, size, pathsCopy, depth - 1);
          ChildStep(f, r, size, done, padded, genIx, childIx, depth - 1);
          children := children + [child];
        }
      }
    }
    t := Node(value, children);
  }
}

module LazyTreeFacts {
  import opened Options
  import opened RandomSource
  import opened Trees
  import opened LazyTree

  /** The child path vectors of call-sites 0 .. n-1 number counts[0] + ... + counts[n-1]. */
  lemma {:induction false} ChildPathsCount(paths: seq<TreePath>, counts: seq<nat>, n: nat)
    requires n <= |counts| <= |paths|
    ensures |ChildPathsUpTo(paths, counts, n)| == Offset(counts, n)
  {
    if n > 0 {
      ChildPathsCount(paths, counts, n - 1);
    }
  }

  /**
   * The child path vector for call-site i and child j sits at position
   * Offset(counts, i) + j: call-site-major, then by child index.
   */
  lemma {:induction false} ChildPathsAt(paths: seq<TreePath>, counts: seq<nat>, n: nat, i: nat, j: nat)
    requires n <= |counts| <= |paths|
    requires i < n && j < counts[i]
    ensures Offset(counts, i) + j < |ChildPathsUpTo(paths, counts, n)|
    ensures ChildPathsUpTo(paths, counts, n)[Offset(counts, i) + j] == Extend(paths, i, j)
  {
    ChildPathsCount(paths, counts, n);
    ChildPathsCount(paths, counts, n - 1);
    var prev := ChildPathsUpTo(paths, counts, n - 1);
    if i < n - 1 {
      ChildPathsAt(paths, counts, n - 1, i, j);
    } else {
      var last := Row(paths, n - 1, counts[n - 1]);
      assert ChildPathsUpTo(paths, counts, n) == prev + last;
      assert last[j] == Extend(paths, i, j);
    }
  }

  /** A child's paths differ from its parent's only at call-site i, whose path gains the child index j. */
  lemma ExtendOnlyChanges(paths: seq<TreePath>, i: nat, j: nat)
    requires i < |paths|
    ensures |Extend(paths, i, j)| == |paths|
    ensures Extend(paths, i, j)[i].indices == paths[i].indices + [j]
    ensures forall m :: 0 <= m < |paths| && m != i ==> Extend(paths, i, j)[m] == paths[m]
  {
  }

  /**
   * A combined tree's value is the closure's result for these paths, and it
   * has one child per call-site and per child of that call-site's selected
   * node: the sum of the recorded child counts.
   */
  lemma CombineRoot<V, A>(f: Closure<V, A>, r: Random, size: nat, paths: seq<TreePath>, depth: nat)
    ensures var e := Run(f, r, size, paths);
      var t := CombineTree(f, r, size, paths, depth);
      t.value == f.finish(e.seen) &&
      |t.children| == if depth == 0 then 0 else Offset(e.counts, |e.counts|)
  {
    var e := Run(f, r, size, paths);
    ChildPathsCount(Pad(paths, |e.counts|), e.counts, |e.counts|);
  }

  /**
   * Child (i, j) of a combined tree, found at position Offset(counts, i) + j
   * (call-site-major order), is the tree rebuilt from the same source and
   * size with the padded paths where call-site i is extended by j.
   */
  lemma CombineChild<V, A>(f: Closure<V, A>, r: Random, size: nat, paths: seq<TreePath>, depth: nat, i: nat, j: nat)
    requires depth > 0
    requires var e := Run(f, r, size, paths); i < |e.counts| && j < e.counts[i]
    ensures var e := Run(f, r, size, paths);
      var t := CombineTree(f, r, size, paths, depth);
      Offset(e.counts, i) + j < |t.children| &&
      t.children[Offset(e.counts, i) + j] == CombineTree(f, r, size, Extend(Pad(paths, |e.counts|), i, j), depth - 1)
  {
    var e := Run(f, r, size, paths);
    var padded := Pad(paths, |e.counts|);
    var kids := ChildPaths(padded, e.counts);
    CombineChildren(f, r, size, paths, depth);
    ChildPathsAt(padded, e.counts, |e.counts|, i, j);
    SubtreesAt(f, r, size, kids, depth - 1, Offset(e.counts, i) + j);
  }

  lemma CombineChildren<V, A>(f: Closure<V, A>, r: Random, size: nat, paths: seq<TreePath>, depth: nat)
    requires depth > 0
    ensures var e := Run(f, r, size, paths);
      CombineTree(f, r, size, paths, depth).children ==
      Subtrees(f, r, size, ChildPaths(Pad(paths, |e.counts|), e.counts), depth - 1)
  {
  }

  lemma SubtreesAt<V, A>(f: Closure<V, A>, r: Random, size: nat, kids: seq<seq<TreePath>>, depth: nat, k: nat)
    requires k < |kids|
    ensures Subtrees(f, r, size, kids, depth)[k] == CombineTree(f, r, size, kids[k], depth)
  {
  }

  /**
   * A closure run ends exactly when the closure stops asking, and it
   * asked at every step before that: the values seen grow one extraction
   * at a time from the starting ones.
   */
  lemma {:induction false} RunStops<V, A>(f: Closure<V, A>, size: nat, paths: seq<TreePath>, e: Extraction<V>)
    requires |e.seen| == |e.counts|
    ensures var res := RunFrom(f, size, paths, e);
      Request(f, res.seen).None? &&
      res.seen[..|e.seen|] == e.seen &&
      forall n :: |e.seen| <= n < |res.seen| ==> Request(f, res.seen[..n]).Some?
    decreases f.bound - |e.seen|
  {
    match Request(f, e.seen)
    case None =>
    case Some(g) =>
      var (rest, child) := Split(e.rand);
      var node := Selected(g(child, size), paths, |e.counts|);
      var e' := Extraction(rest, e.seen + [node.value], e.counts + [|node.children|]);
      RunStops(f, size, paths, e');
      var res := RunFrom(f, size, paths, e');
      assert res.seen[..|e.seen|] == res.seen[..|e'.seen|][..|e.seen|];
      forall n | |e.seen| <= n < |res.seen|
        ensures Request(f, res.seen[..n]).Some?
      {
        if n == |e.seen| {
          assert res.seen[..n] == e.seen;
        }
      }
  }

  /** An empty path selects the root, exactly as a missing path does. */
  lemma {:induction false} RunTrailingEmpty<V, A>(f: Closure<V, A>, size: nat, paths: seq<TreePath>, e: Extraction<V>)
    requires |e.seen| == |e.counts|
    ensures RunFrom(f, size, paths, e) == RunFrom(f, size, paths + [EmptyPath()], e)
    decreases f.bound - |e.seen|
  {
    match Request(f, e.seen)
    case None =>
    case Some(g) =>
      var (rest, child) := Split(e.rand);
      var tree := g(child, size);
      assert Selected(tree, paths, |e.counts|) == Selected(tree, paths + [EmptyPath()], |e.counts|);
      var node := Selected(tree, paths, |e.counts|);
      RunTrailingEmpty(f, size, paths, Extraction(rest, e.seen + [node.value], e.counts + [|node.children|]));
  }

  lemma {:induction false} ChildPathsTrailingEmpty(paths: seq<TreePath>, counts: seq<nat>, n: nat)
    requires n <= |counts| <= |paths|
    ensures |ChildPathsUpTo(paths + [EmptyPath()], counts, n)| == |ChildPathsUpTo(paths, counts, n)|
    ensures forall k :: 0 <= k < |ChildPathsUpTo(paths, counts, n)| ==>
      ChildPathsUpTo(paths + [EmptyPath()], counts, n)[k] == ChildPathsUpTo(paths, counts, n)[k] + [EmptyPath()]
  {
    if n > 0 {
      ChildPathsTrailingEmpty(paths, counts, n - 1);
      var paths' := paths + [EmptyPath()];
      var prev := ChildPathsUpTo(paths, counts, n - 1);
      var prev' := ChildPathsUpTo(paths', counts, n - 1);
      var last := Row(paths, n - 1, counts[n - 1]);
      var last' := Row(paths', n - 1, counts[n - 1]);
      assert ChildPathsUpTo(paths, counts, n) == prev + last;
      assert ChildPathsUpTo(paths', counts, n) == prev' + last';
      forall k | 0 <= k < |prev + last|
        ensures (prev' + last')[k] == (prev + last)[k] + [EmptyPath()]
      {
        if k >= |prev| {
          assert last'[k - |prev|] == last[k - |prev|] + [EmptyPath()];
        }
      }
    }
  }

  /**
   * Missing input paths are treated as empty paths: adding an empty path
   * for the next call-site changes nothing in the tree that is built.
   */
  lemma {:induction false} EmptyPathsImplicit<V, A>(f: Closure<V, A>, r: Random, size: nat, paths: seq<TreePath>, depth: nat)
    ensures CombineTree(f, r, size, paths, depth) == CombineTree(f, r, size, paths + [EmptyPath()], depth)
    decreases depth, 0
  {
    var paths' := paths + [EmptyPath()];
    var e := Run(f, r, size, paths);
    RunTrailingEmpty(f, size, paths, Extraction(r, [], []));
    var n := |e.counts|;
    if depth > 0 {
      if |paths| < n {
        assert Pad(paths, n) == Pad(paths', n);
      } else {
        assert Pad(paths, n) == paths && Pad(paths', n) == paths';
        ChildPathsTrailingEmpty(paths, e.counts, n);
        SubtreesTrailingEmpty(f, r, size, ChildPaths(paths, e.counts), ChildPaths(paths', e.counts), depth - 1);
      }
    }
  }

  /** Path vectors that differ only by a trailing empty path build the same trees. */
  lemma {:induction false} SubtreesTrailingEmpty<V, A>(f: Closure<V, A>, r: Random, size: nat, kids: seq<seq<TreePath>>, kids': seq<seq<TreePath>>, depth: nat)
    requires |kids'| == |kids| && forall k :: 0 <= k < |kids| ==> kids'[k] == kids[k] + [EmptyPath()]
    ensures Subtrees(f, r, size, kids, depth) == Subtrees(f, r, size, kids', depth)
    decreases depth, 1
  {
    forall k | 0 <= k < |kids|
      ensures CombineTree(f, r, size, kids[k], depth) == CombineTree(f, r, size, kids'[k], depth)
    {
      EmptyPathsImplicit(f, r, size, kids[k], depth);
    }
  }
}

/** Closures that make exactly one extraction and transform its value, with the shrink tree they produce. */
module SingleExtraction {
  import opened Options
  import opened RandomSource
  import opened Trees
  import opened LazyTree
  import opened LazyTreeFacts

  /** `|c| h(c.of(g))`; `default` is the result of a run that extracted nothing, which never happens. */
  function MapClosure<V, A>(g: Gen<V>, h: V -> A, default: A): Closure<V, A>
  {
    Closure(seen => if |seen| == 0 then Some(g) else None, seen => if |seen| == 0 then default else h(seen[0]), 1)
  }

  /** One run of such a closure extracts exactly once, from the node its only path selects. */
  lemma SingleRun<V, A>(g: Gen<V>, h: V -> A, default: A, r: Random, size: nat, paths: seq<TreePath>)
    ensures var e := Run(MapClosure(g, h, default), r, size, paths);
      var node := Selected(g(Split(r).1, size), paths, 0);
      e.seen == [node.value] && e.counts == [|node.children|]
  {
    var f := MapClosure(g, h, default);
    var node := Selected(g(Split(r).1, size), paths, 0);
    var e1 := Extraction(Split(r).0, [node.value], [|node.children|]);
    assert Request(f, []) == Some(g);
    assert RunFrom(f, size, paths, Extraction(r, [], [])) == RunFrom(f, size, paths, e1);
    assert Request(f, e1.seen) == None;
  }

  /**
   * Combining a single extraction reproduces the shrink tree of the
   * extracted generator below the selected node, with its values
   * transformed: the derived generator inherits the shrinks unchanged.
   */
  lemma {:induction false} SingleExtract<V, A>(g: Gen<V>, h: V -> A, default: A, r: Random, size: nat, p: seq<nat>, depth: nat)
    requires ValidPath(g(Split(r).1, size), p)
    requires HeightAtMost(At(g(Split(r).1, size), p), depth)
    ensures CombineTree(MapClosure(g, h, default), r, size, [TreePath(p)], depth) == MapTree(At(g(Split(r).1, size), p), h)
    decreases depth
  {
    var f := MapClosure(g, h, default);
    var T := g(Split(r).1, size);
    var node := At(T, p);
    ResolveValid(T, p);
    SingleRun(g, h, default, r, size, [TreePath(p)]);
    var t := CombineTree(f, r, size, [TreePath(p)], depth);
    var m := MapTree(node, h);
    CombineRoot(f, r, size, [TreePath(p)], depth);
    assert t.value == m.value;
    if depth > 0 {
      forall k | 0 <= k < |node.children|
        ensures t.children[k] == m.children[k]
      {
        CombineChild(f, r, size, [TreePath(p)], depth, 0, k);
        assert Extend(Pad([TreePath(p)], 1), 0, k) == [TreePath(p + [k])];
        AtExtend(T, p, k);
        SingleExtract(g, h, default, r, size, p + [k], depth - 1);
      }
    }
  }

  /** The same from the root, where the builder starts with no paths at all. */
  lemma SingleExtractRoot<V, A>(g: Gen<V>, h: V -> A, default: A, r: Random, size: nat, depth: nat)
    requires HeightAtMost(g(Split(r).1, size), depth)
    ensures Combine(MapClosure(g, h, default), depth)(r, size) == MapTree(g(Split(r).1, size), h)
  {
    EmptyPathsImplicit(MapClosure(g, h, default), r, size, [], depth);
    assert [] + [EmptyPath()] == [TreePath([])];
    SingleExtract(g, h, default, r, size, [], depth);
  }

  /** Mapping the identity leaves a tree unchanged. */
  lemma {:induction false} MapTreeIdentity<V>(t: Tree<V>, h: V -> V)
    requires forall x :: h(x) == x
    ensures MapTree(t, h) == t
    decreases t
  {
    forall k | 0 <= k < |t.children|
      ensures MapTree(t, h).children[k] == t.children[k]
    {
      MapTreeIdentity(t.children[k], h);
    }
  }

  /** Mapping keeps a property shared by all nodes when the map carries it over. */
  lemma {:induction false} MapTreeKeeps<V, A>(t: Tree<V>, h: V -> A, P: V -> bool, Q: A -> bool)
    requires AllNodes(t, P)
    requires forall x :: P(x) ==> Q(h(x))
    ensures AllNodes(MapTree(t, h), Q)
    decreases t
  {
    forall k | 0 <= k < |t.children|
      ensures AllNodes(MapTree(t, h).children[k], Q)
    {
      MapTreeKeeps(t.children[k], h, P, Q);
    }
  }
}
