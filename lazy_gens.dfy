/**
 * The generators of src/hh3_lazy_tree.rs built on the combine engine:
 * `Gen::u64` with its shrink tree `shrink_u64`, and the derived
 * generators `usize`, `choose` and `vec`, which are closures over the
 * chooser and so inherit their shrinks from the generators they extract.
 */
module LazyGens {
  import opened Options
  import opened RandomSource
  import opened Trees
  import opened LazyTree
  import opened LazyTreeFacts
  import opened SingleExtraction

  /**
   * `shrink_u64`: the candidates for `value` drawn from a range starting at
   * `start`.  With `delta = value - start`, a value more than 4 above the
   * start first tries the midpoint `start + delta / 2` and then `value - 1`;
   * a value at most 4 above it tries only `value - 1`; the start itself is
   * fully shrunk.  A value below the start is a u64 underflow in the
   * source, hence the precondition.
   */
  function ShrinkU64(start: nat, value: nat): (t: Tree<nat>)
    requires start <= value
    ensures t.value == value
    ensures |t.children| == 0 <==> value == start
    decreases value - start
  {
    var delta := value - start;
    if delta > 4 then Node(value, [ShrinkU64(start, start + delta / 2), ShrinkU64(start, value - 1)])
    else if delta > 0 then Node(value, [ShrinkU64(start, value - 1)])
    else Node(value, [])
  }

  /** Membership of the half-open range [lo, hi), as a predicate on node values. */
  function InRange(lo: nat, hi: nat): nat -> bool
  {
    x => lo <= x < hi
  }

  /** The candidates offered at one node, as the three cases on `delta` describe them. */
  lemma ShrinkU64Candidates(start: nat, value: nat)
    requires start <= value
    ensures var t := ShrinkU64(start, value);
      var delta := value - start;
      t.value == value &&
      (delta == 0 <==> |t.children| == 0) &&
      (delta > 4 ==> |t.children| == 2 && t.children[0].value == start + delta / 2 && t.children[1].value == value - 1) &&
      (0 < delta <= 4 ==> |t.children| == 1 && t.children[0].value == value - 1)
  {
  }

  /** Shrinking never leaves the range: every candidate lies in [start, hi) when the value does. */
  lemma {:induction false} ShrinkU64Within(start: nat, value: nat, hi: nat)
    requires start <= value < hi
    ensures AllNodes(ShrinkU64(start, value), InRange(start, hi))
    decreases value - start
  {
    var delta := value - start;
    if delta > 4 {
      ShrinkU64Within(start, start + delta / 2, hi);
      ShrinkU64Within(start, value - 1, hi);
    } else if delta > 0 {
      ShrinkU64Within(start, value - 1, hi);
    }
  }

  /** Every candidate is strictly smaller than the value it shrinks. */
  predicate Shrinking(t: Tree<nat>)
    decreases t
  {
    forall i :: 0 <= i < |t.children| ==> t.children[i].value < t.value && Shrinking(t.children[i])
  }

  lemma {:induction false} ShrinkU64Shrinks(start: nat, value: nat)
    requires start <= value
    ensures Shrinking(ShrinkU64(start, value))
    decreases value - start
  {
    var delta := value - start;
    if delta > 4 {
      ShrinkU64Shrinks(start, start + delta / 2);
      ShrinkU64Shrinks(start, value - 1);
    } else if delta > 0 {
      ShrinkU64Shrinks(start, value - 1);
    }
  }

  /** The values met from the root by always taking the last candidate, down to a fully shrunk node. */
  function LastChain<A>(t: Tree<A>): (s: seq<A>)
    ensures |s| >= 1 && s[0] == t.value
    decreases t
  {
    if |t.children| == 0 then [t.value] else [t.value] + LastChain(t.children[|t.children| - 1])
  }

  /**
   * The last candidate is always `value - 1`, so following it counts down
   * one at a time and reaches the start in exactly `delta` steps.
   */
  lemma {:induction false} ShrinkU64CountsDown(start: nat, value: nat)
    requires start <= value
    ensures var s := LastChain(ShrinkU64(start, value));
      |s| == value - start + 1 && forall i :: 0 <= i < |s| ==> s[i] == value - i
    decreases value - start
  {
    if value > start {
      ShrinkU64CountsDown(start, value - 1);
    }
  }

  /** No chain of shrinks is longer than `delta`, so a combine depth of `delta` loses nothing. */
  lemma {:induction false} ShrinkU64Height(start: nat, value: nat, d: nat)
    requires start <= value && value - start <= d
    ensures HeightAtMost(ShrinkU64(start, value), d)
    decreases value - start
  {
    var delta := value - start;
    if delta > 4 {
      ShrinkU64Height(start, start + delta / 2, d - 1);
      ShrinkU64Height(start, value - 1, d - 1);
    } else if delta > 0 {
      ShrinkU64Height(start, value - 1, d - 1);
    }
  }

  /** `Gen::u64`: draws a value in [lo, hi) from its own source and shrinks it towards lo; the size is unused. */
  function U64(lo: nat, hi: nat): (g: Gen<nat>)
    requires lo < hi
    ensures forall r: Random, size: nat :: g(r, size).value == U64Range(r, lo, hi) && lo <= g(r, size).value < hi
  {
    (r: Random, size: nat) => ShrinkU64(lo, U64Range(r, lo, hi))
  }

  /** The root is the drawn value, every candidate stays in [lo, hi), and the last-candidate chain ends at lo. */
  lemma U64Tree(lo: nat, hi: nat, r: Random, size: nat)
    requires lo < hi
    ensures var t := U64(lo, hi)(r, size);
      var s := LastChain(t);
      t.value == U64Range(r, lo, hi) &&
      AllNodes(t, InRange(lo, hi)) &&
      Shrinking(t) &&
      s[|s| - 1] == lo
  {
    var v := U64Range(r, lo, hi);
    ShrinkU64Within(lo, v, hi);
    ShrinkU64Shrinks(lo, v);
    ShrinkU64CountsDown(lo, v);
  }

  /** The identity on extracted indices. */
  function Identity(x: nat): nat
  {
    x
  }

  /**
   * `Gen::usize`: a combined generator making one extraction from
   * `Gen::u64` over the same range.  The combine depth `hi - lo` bounds
   * every chain of u64 shrinks, so the usize tree is exactly the u64 tree
   * drawn from the chooser's first split, shrinks included.
   */
  function Usize(lo: nat, hi: nat): (g: Gen<nat>)
    requires lo < hi
    ensures forall r: Random, size: nat :: g(r, size) == U64(lo, hi)(Split(r).1, size)
  {
    UsizeTree(lo, hi);
    Combine(MapClosure(U64(lo, hi), Identity, lo), hi - lo)
  }

  /** The combined single extraction that `usize` is built from gives back the u64 tree. */
  lemma UsizeTree(lo: nat, hi: nat)
    requires lo < hi
    ensures forall r: Random, size: nat ::
      Combine(MapClosure(U64(lo, hi), Identity, lo), hi - lo)(r, size) == U64(lo, hi)(Split(r).1, size)
  {
    forall r: Random, size: nat
      ensures Combine(MapClosure(U64(lo, hi), Identity, lo), hi - lo)(r, size) == U64(lo, hi)(Split(r).1, size)
    {
      var t := U64(lo, hi)(Split(r).1, size);
      ShrinkU64Height(lo, t.value, hi - lo);
      SingleExtractRoot(U64(lo, hi), Identity, lo, r, size, hi - lo);
      MapTreeIdentity(t, Identity);
    }
  }

  /** Indexing into the choices; an out-of-range index, which never occurs, would be a panic in the source. */
  function Pick<A>(v: seq<A>): nat -> A
    requires |v| > 0
  {
    (ix: nat) => if ix < |v| then v[ix] else v[0]
  }

  /**
   * `Gen::choose`: extracts an index from `usize(0..len)` and returns that
   * element; an empty vector is a caller error.  Its tree is the index
   * shrink tree with each index replaced by its element.
   */
  function Choose<A>(v: seq<A>): (g: Gen<A>)
    requires |v| > 0
    ensures forall r: Random, size: nat :: g(r, size) == MapTree(ShrinkU64(0, ChosenIndex(v, r)), Pick(v))
  {
    ChooseTree(v);
    Combine(MapClosure(Usize(0, |v|), Pick(v), v[0]), |v|)
  }

  /** The index `choose` draws: from the u64 source two splits down. */
  function ChosenIndex<A>(v: seq<A>, r: Random): (ix: nat)
    requires |v| > 0
    ensures ix < |v|
  {
    U64Range(Split(Split(r).1).1, 0, |v|)
  }

  /** The combined single extraction that `choose` is built from maps the index tree to elements. */
  lemma ChooseTree<A>(v: seq<A>)
    requires |v| > 0
    ensures forall r: Random, size: nat ::
      Combine(MapClosure(Usize(0, |v|), Pick(v), v[0]), |v|)(r, size) == MapTree(ShrinkU64(0, ChosenIndex(v, r)), Pick(v))
  {
    forall r: Random, size: nat
      ensures Combine(MapClosure(Usize(0, |v|), Pick(v), v[0]), |v|)(r, size) == MapTree(ShrinkU64(0, ChosenIndex(v, r)), Pick(v))
    {
      ShrinkU64Height(0, ChosenIndex(v, r), |v|);
      SingleExtractRoot(Usize(0, |v|), Pick(v), v[0], r, size, |v|);
    }
  }

  /** Mapping values commutes with following the last candidate. */
  lemma {:induction false} LastChainMap<A, B>(t: Tree<A>, h: A -> B)
    ensures var s := LastChain(t);
      var m := LastChain(MapTree(t, h));
      |m| == |s| && forall i :: 0 <= i < |s| ==> m[i] == h(s[i])
    decreases t
  {
    if |t.children| > 0 {
      LastChainMap(t.children[|t.children| - 1], h);
    }
  }

  /** Picking with an index below n gives one of the first n elements. */
  lemma PickInPrefix<A>(v: seq<A>, n: nat)
    requires 0 < n <= |v|
    ensures forall x: nat :: InRange(0, n)(x) ==> InPrefix(v, n)(Pick(v)(x))
  {
    forall x: nat | InRange(0, n)(x)
      ensures InPrefix(v, n)(Pick(v)(x))
    {
      assert v[..n][x] == v[x];
    }
  }

  /** Following the last candidate of the mapped index tree walks back through the vector. */
  lemma PickedChain<A>(v: seq<A>, ix: nat)
    requires ix < |v|
    ensures var s := LastChain(MapTree(ShrinkU64(0, ix), Pick(v)));
      |s| == ix + 1 && forall i :: 0 <= i <= ix ==> s[i] == v[ix - i]
  {
    ShrinkU64CountsDown(0, ix);
    LastChainMap(ShrinkU64(0, ix), Pick(v));
  }

  /**
   * The element tree `choose` builds around index ix (see Choose): its
   * root is the element at ix, every candidate is an element at or before
   * ix, and the last-candidate chain walks back through the vector one
   * element at a time to its first element.
   */
  lemma PickedValues<A>(v: seq<A>, ix: nat)
    requires ix < |v|
    ensures var t := MapTree(ShrinkU64(0, ix), Pick(v));
      var s := LastChain(t);
      t.value == v[ix] &&
      AllNodes(t, InPrefix(v, ix + 1)) &&
      |s| == ix + 1 && forall i :: 0 <= i <= ix ==> s[i] == v[ix - i]
  {
    var u := ShrinkU64(0, ix);
    ShrinkU64Within(0, ix, ix + 1);
    PickInPrefix(v, ix + 1);
    MapTreeKeeps(u, Pick(v), InRange(0, ix + 1), InPrefix(v, ix + 1));
    PickedChain(v, ix);
  }

  /** Being one of the first n elements of v. */
  ghost function InPrefix<A>(v: seq<A>, n: nat): A -> bool
    requires n <= |v|
  {
    x => x in v[..n]
  }

  /**
   * The closure of `Gen::vec`: the length first, from `len`, then that many
   * elements from `elem`.  The run is bounded by `maxLen + 1` extractions.
   */
  function VecClosure(elem: Gen<nat>, len: Gen<nat>, maxLen: nat): (c: Closure<nat, seq<nat>>)
    ensures c.bound == maxLen + 1 && c.next([]) == Some(len)
    ensures forall seen: seq<nat> :: 1 <= |seen| ==> (c.next(seen).Some? <==> |seen| <= seen[0])
  {
    Closure(
      seen => if |seen| == 0 then Some(len) else if |seen| <= seen[0] then Some(elem) else None,
      seen => if |seen| == 0 then [] else seen[1..],
      maxLen + 1)
  }

  /**
   * `Gen::vec`, combined to the given depth: the root vector has exactly
   * the length drawn from the chooser's first split, when that length is
   * within the bound.
   */
  function Vec(elem: Gen<nat>, len: Gen<nat>, maxLen: nat, depth: nat): (g: Gen<seq<nat>>)
    ensures forall r: Random, size: nat ::
      len(Split(r).1, size).value <= maxLen ==> |g(r, size).value| == len(Split(r).1, size).value
  {
    VecRoots(elem, len, maxLen, depth);
    Combine(VecClosure(elem, len, maxLen), depth)
  }

  lemma VecRoots(elem: Gen<nat>, len: Gen<nat>, maxLen: nat, depth: nat)
    ensures forall r: Random, size: nat ::
      len(Split(r).1, size).value <= maxLen ==>
      |Combine(VecClosure(elem, len, maxLen), depth)(r, size).value| == len(Split(r).1, size).value
  {
    forall r: Random, size: nat
      ensures len(Split(r).1, size).value <= maxLen ==>
        |Combine(VecClosure(elem, len, maxLen), depth)(r, size).value| == len(Split(r).1, size).value
    {
      VecLength(elem, len, maxLen, r, size, [], depth);
    }
  }

  /**
   * Whatever the paths, the first extraction is the length, taken from the
   * length generator, and when it is within the bound the node's vector
   * holds exactly that many elements, the values extracted after it.
   */
  lemma VecLength(elem: Gen<nat>, len: Gen<nat>, maxLen: nat, r: Random, size: nat, paths: seq<TreePath>, depth: nat)
    ensures var f := VecClosure(elem, len, maxLen);
      var e := Run(f, r, size, paths);
      var t := CombineTree(f, r, size, paths, depth);
      |e.seen| >= 1 &&
      e.seen[0] == Selected(len(Split(r).1, size), paths, 0).value &&
      t.value == e.seen[1..] &&
      (e.seen[0] <= maxLen ==> |t.value| == e.seen[0])
  {
    var f := VecClosure(elem, len, maxLen);
    var node := Selected(len(Split(r).1, size), paths, 0);
    var e1 := Extraction(Split(r).0, [node.value], [|node.children|]);
    var e0 := Extraction(r, [], []);
    assert Request(f, e0.seen) == Some(len);
    assert e0.seen + [node.value] == e1.seen && e0.counts + [|node.children|] == e1.counts;
    assert RunFrom(f, size, paths, e0) == RunFrom(f, size, paths, e1);
    RunStops(f, size, paths, e1);
    var e := Run(f, r, size, paths);
    assert e.seen[0] == e.seen[..1][0] == node.value;
    CombineRoot(f, r, size, paths, depth);
    if |e.seen| >= 2 {
      // the last extraction was requested, so it was within the announced length
      var m := |e.seen| - 1;
      assert Request(f, e.seen[..m]).Some?;
      assert e.seen[..m][0] == e.seen[0];
    }
  }

  /**
   * Why the midpoint is switched off in src/hh2_tree.rs: in the lazy tree
   * the same value is offered twice, here 5 below 10 both as the midpoint
   * and at the end of five decrements.
   */
  lemma LazyTreeRepeats()
    ensures var t := ShrinkU64(0, 10);
      ValidPath(t, [0]) && ValidPath(t, [1, 1, 1, 1, 1]) &&
      At(t, [0]).value == 5 && At(t, [1, 1, 1, 1, 1]).value == 5
  {
  }
}
