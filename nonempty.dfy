/** Non-empty vectors: a first element and the rest (src/nonempty.rs). */
module NonEmptyVec {

  datatype NonEmpty<A> = NonEmpty(zero: A, rest: seq<A>)

  /** `NonEmpty::len`: the rest and the first element, so never zero. */
  function Len<A>(n: NonEmpty<A>): (l: nat)
    ensures l >= 1
  {
    |n.rest| + 1
  }

  /** `NonEmpty::index`: position 0 is the first element, position i > 0 is `rest[i - 1]`; beyond the length it panics. */
  function Index<A>(n: NonEmpty<A>, ix: nat): (a: A)
    requires ix < Len(n)
    ensures ix == 0 ==> a == n.zero
    ensures ix > 0 ==> a == n.rest[ix - 1]
  {
    if ix == 0 then n.zero else n.rest[ix - 1]
  }

  /** Appending to the rest keeps every existing position and adds one at the end. */
  lemma IndexPush<A>(n: NonEmpty<A>, x: A)
    ensures var m := NonEmpty(n.zero, n.rest + [x]);
      Len(m) == Len(n) + 1 &&
      Index(m, Len(n)) == x &&
      forall i :: 0 <= i < Len(n) ==> Index(m, i) == Index(n, i)
  {
  }

  /**
   * `NonEmpty::to_vec`: pushes the first element, then the rest in order.
   * The vector has the non-empty vector's length and holds at each
   * position what `index` returns there.
   */
  method ToVec<A>(n: NonEmpty<A>) returns (v: seq<A>)
    ensures |v| == Len(n)
    ensures forall i :: 0 <= i < |v| ==> v[i] == Index(n, i)
  {
    v := [n.zero];
    var k := 0;
    while k < |n.rest|
      invariant 0 <= k <= |n.rest|
      invariant |v| == k + 1 && v[0] == n.zero
      invariant forall i :: 1 <= i < |v| ==> v[i] == n.rest[i - 1]
    {
      v := v + [n.rest[k]];
      k := k + 1;
    }
  }
}
