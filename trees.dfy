/**
 * Rose trees of shrink candidates and the paths that address them
 * (`Tree`, `TreePath` and `Tree::get_path_or_closest` in
 * src/hh3_lazy_tree.rs and, with eager children, src/hh2_tree.rs).
 */
module Trees {

  /** A generated value and its possible one-step shrinks; a node without children is fully shrunk. */
  datatype Tree<A> = Node(value: A, children: seq<Tree<A>>)

  /** Each index selects a child of the node reached so far; the empty path is the root, unshrunk. */
  datatype TreePath = TreePath(indices: seq<nat>)

  function EmptyPath(): (p: TreePath)
    ensures |p.indices| == 0
  {
    TreePath([])
  }

  /** Every index of the path is in range at the node it is applied to. */
  predicate ValidPath<A>(t: Tree<A>, path: seq<nat>)
    decreases |path|
  {
    path == [] || (path[0] < |t.children| && ValidPath(t.children[path[0]], path[1..]))
  }

  /** The node at a valid path. */
  function At<A>(t: Tree<A>, path: seq<nat>): Tree<A>
    requires ValidPath(t, path)
    decreases |path|
  {
    if path == [] then t else At(t.children[path[0]], path[1..])
  }

  /** Path lookup that stops at the deepest node reached when an index is out of range. */
  function Resolve<A>(t: Tree<A>, path: seq<nat>): Tree<A>
    decreases |path|
  {
    if path == [] then t
    else if path[0] < |t.children| then Resolve(t.children[path[0]], path[1..])
    else t
  }

  /** `Tree::get_path_or_closest`: walks the path by reassigning the current node. */
  method GetPathOrClosest<A>(t: Tree<A>, path: TreePath) returns (here: Tree<A>)
    ensures here == Resolve(t, path.indices)
    ensures path.indices == [] ==> here == t
  {
    here := t;
    var i := 0;
    while i < |path.indices|
      invariant 0 <= i <= |path.indices|
      invariant Resolve(here, path.indices[i..]) == Resolve(t, path.indices)
    {
      var ix := path.indices[i];
      if ix < |here.children| {
        here := here.children[ix];
      } else {
        // out of range: the deepest node reached so far is the answer
        return;
      }
      i := i + 1;
    }
  }

  /** On a path whose every index is in range, lookup finds exactly the node at that path. */
  lemma {:induction false} ResolveValid<A>(t: Tree<A>, path: seq<nat>)
    requires ValidPath(t, path)
    ensures Resolve(t, path) == At(t, path)
    decreases |path|
  {
    if path != [] {
      ResolveValid(t.children[path[0]], path[1..]);
    }
  }

  /**
   * Lookup never fails: it returns the node at the longest valid prefix
   * `path[..k]` of the path, and when that prefix is not the whole path the
   * next index is out of range there.
   */
  lemma {:induction false} ResolveClosest<A>(t: Tree<A>, path: seq<nat>) returns (k: nat)
    ensures k <= |path| && ValidPath(t, path[..k])
    ensures Resolve(t, path) == At(t, path[..k])
    ensures k < |path| ==> path[k] >= |At(t, path[..k]).children|
    decreases |path|
  {
    if path == [] {
      k := 0;
    } else if path[0] < |t.children| {
      var child := t.children[path[0]];
      var k' := ResolveClosest(child, path[1..]);
      k := k' + 1;
      assert path[..k][1..] == path[1..][..k'];
    } else {
      k := 0;
      assert path[..k] == [];
    }
  }

  /** Extending a valid path by an in-range child index reaches that child. */
  lemma {:induction false} AtExtend<A>(t: Tree<A>, path: seq<nat>, j: nat)
    requires ValidPath(t, path) && j < |At(t, path).children|
    ensures ValidPath(t, path + [j])
    ensures At(t, path + [j]) == At(t, path).children[j]
    decreases |path|
  {
    if path == [] {
      assert ([] + [j])[1..] == [];
    } else {
      assert (path + [j])[1..] == path[1..] + [j];
      AtExtend(t.children[path[0]], path[1..], j);
    }
  }

  /** Every node value of the tree satisfies P. */
  predicate AllNodes<A>(t: Tree<A>, P: A -> bool)
    decreases t
  {
    P(t.value) && forall i :: 0 <= i < |t.children| ==> AllNodes(t.children[i], P)
  }

  /** Lookup returns a node of the tree, so it keeps every property all nodes share. */
  lemma {:induction false} ResolveKeeps<A>(t: Tree<A>, path: seq<nat>, P: A -> bool)
    requires AllNodes(t, P)
    ensures AllNodes(Resolve(t, path), P)
    decreases |path|
  {
    if path != [] && path[0] < |t.children| {
      ResolveKeeps(t.children[path[0]], path[1..], P);
    }
  }

  /** No path of more than d steps exists in the tree. */
  predicate HeightAtMost<A>(t: Tree<A>, d: nat)
    decreases t
  {
    |t.children| == 0 || (d > 0 && forall i :: 0 <= i < |t.children| ==> HeightAtMost(t.children[i], d - 1))
  }

  /** The same tree shape with every value transformed. */
  function MapTree<A, B>(t: Tree<A>, h: A -> B): (m: Tree<B>)
    ensures m.value == h(t.value) && |m.children| == |t.children|
    decreases t
  {
    Node(h(t.value), seq(|t.children|, i requires 0 <= i < |t.children| => MapTree(t.children[i], h)))
  }
}
