/**
 * The generators of src/hh2_tree.rs.  Its tree, path lookup, chooser and
 * combine builder are the ones of src/hh3_lazy_tree.rs with the children
 * computed eagerly; since the model's trees are values, both versions run
 * on the engine of module LazyTree.  What differs is `shrink_u64`, whose
 * midpoint candidate is switched off, so a drawn value shrinks along a
 * single chain.
 */
module StrictTree {
  import opened RandomSource
  import opened Trees
  import opened LazyTree
  import opened SingleExtraction
  import L = LazyGens

  /** `shrink_u64` of hh2: the only candidate of a value above the start is `value - 1`, whatever `delta` is. */
  function ShrinkU64(start: nat, value: nat): (t: Tree<nat>)
    requires start <= value
    ensures t.value == value
    ensures |t.children| == (if value == start then 0 else 1)
    ensures |t.children| == 1 ==> t.children[0].value == value - 1
    decreases value - start
  {
    var delta := value - start;
    if delta > 4 then Node(value, [ShrinkU64(start, value - 1)])
    else if delta > 0 then Node(value, [ShrinkU64(start, value - 1)])
    else Node(value, [])
  }

  /** No node has more than one candidate. */
  predicate Chain<A>(t: Tree<A>)
    decreases t
  {
    |t.children| <= 1 && forall i :: 0 <= i < |t.children| ==> Chain(t.children[i])
  }

  /**
   * The strict tree is a single chain counting down from the value to the
   * start, one at a time: `delta + 1` nodes and no repeated value.
   */
  lemma {:induction false} ShrinkU64Chain(start: nat, value: nat)
    requires start <= value
    ensures var t := ShrinkU64(start, value);
      var s := L.LastChain(t);
      Chain(t) && |s| == value - start + 1 && forall i :: 0 <= i < |s| ==> s[i] == value - i
    decreases value - start
  {
    if value > start {
      ShrinkU64Chain(start, value - 1);
    }
  }

  /** The strict chain is the decrement chain of the lazy tree, which also offers midpoints. */
  lemma ShrinkU64DropsMidpoints(start: nat, value: nat)
    requires start <= value
    ensures L.LastChain(ShrinkU64(start, value)) == L.LastChain(L.ShrinkU64(start, value))
  {
    ShrinkU64Chain(start, value);
    L.ShrinkU64CountsDown(start, value);
  }

  lemma {:induction false} ShrinkU64Height(start: nat, value: nat, d: nat)
    requires start <= value && value - start <= d
    ensures HeightAtMost(ShrinkU64(start, value), d)
    decreases value - start
  {
    if value > start {
      ShrinkU64Height(start, value - 1, d - 1);
    }
  }

  /** `Gen::u64` of hh2: the root is the value drawn in [lo, hi). */
  function U64(lo: nat, hi: nat): (g: Gen<nat>)
    requires lo < hi
    ensures forall r: Random, size: nat :: g(r, size).value == U64Range(r, lo, hi) && lo <= g(r, size).value < hi
  {
    (r: Random, size: nat) => ShrinkU64(lo, U64Range(r, lo, hi))
  }

  /** `Gen::usize` of hh2: one extraction from its `u64`, whose tree it gives back unchanged. */
  function Usize(lo: nat, hi: nat): (g: Gen<nat>)
    requires lo < hi
    ensures forall r: Random, size: nat :: g(r, size) == U64(lo, hi)(Split(r).1, size)
  {
    UsizeTree(lo, hi);
    Combine(MapClosure(U64(lo, hi), L.Identity, lo), hi - lo)
  }

  lemma UsizeTree(lo: nat, hi: nat)
    requires lo < hi
    ensures forall r: Random, size: nat ::
      Combine(MapClosure(U64(lo, hi), L.Identity, lo), hi - lo)(r, size) == U64(lo, hi)(Split(r).1, size)
  {
    forall r: Random, size: nat
      ensures Combine(MapClosure(U64(lo, hi), L.Identity, lo), hi - lo)(r, size) == U64(lo, hi)(Split(r).1, size)
    {
      var t := U64(lo, hi)(Split(r).1, size);
      ShrinkU64Height(lo, t.value, hi - lo);
      SingleExtractRoot(U64(lo, hi), L.Identity, lo, r, size, hi - lo);
      MapTreeIdentity(t, L.Identity);
    }
  }

  /** `Gen::choose` of hh2: the strict index chain with each index replaced by its element. */
  function Choose<A>(v: seq<A>): (g: Gen<A>)
    requires |v| > 0
    ensures forall r: Random, size: nat :: g(r, size) == MapTree(ShrinkU64(0, L.ChosenIndex(v, r)), L.Pick(v))
  {
    ChooseTree(v);
    Combine(MapClosure(Usize(0, |v|), L.Pick(v), v[0]), |v|)
  }

  lemma ChooseTree<A>(v: seq<A>)
    requires |v| > 0
    ensures forall r: Random, size: nat ::
      Combine(MapClosure(Usize(0, |v|), L.Pick(v), v[0]), |v|)(r, size) == MapTree(ShrinkU64(0, L.ChosenIndex(v, r)), L.Pick(v))
  {
    forall r: Random, size: nat
      ensures Combine(MapClosure(Usize(0, |v|), L.Pick(v), v[0]), |v|)(r, size) == MapTree(ShrinkU64(0, L.ChosenIndex(v, r)), L.Pick(v))
    {
      ShrinkU64Height(0, L.ChosenIndex(v, r), |v|);
      SingleExtractRoot(Usize(0, |v|), L.Pick(v), v[0], r, size, |v|);
    }
  }

  /**
   * The strict element tree `choose` builds around index ix (see
   * Choose) is a chain from the element at ix back through the vector
   * to its first element.
   */
  lemma PickedChain<A>(v: seq<A>, ix: nat)
    requires ix < |v|
    ensures var t := MapTree(ShrinkU64(0, ix), L.Pick(v));
      var s := L.LastChain(t);
      Chain(t) && |s| == ix + 1 && forall i :: 0 <= i <= ix ==> s[i] == v[ix - i]
  {
    ShrinkU64Chain(0, ix);
    L.LastChainMap(ShrinkU64(0, ix), L.Pick(v));
    MapChain(ShrinkU64(0, ix), L.Pick(v));
  }

  /** Mapping values keeps a chain a chain. */
  lemma {:induction false} MapChain<A, B>(t: Tree<A>, h: A -> B)
    requires Chain(t)
    ensures Chain(MapTree(t, h))
    decreases t
  {
    forall k | 0 <= k < |t.children|
      ensures Chain(MapTree(t, h).children[k])
    {
      MapChain(t.children[k], h);
    }
  }
}
