/**
 * Non-deterministic computations (src/nondet.rs).  A computation offers a
 * non-empty vector of choices; `NonDet::combine` runs a closure that
 * extracts values through a `Witness` once for every combination of
 * choice indices, stepping through the combinations with
 * `incr_choice_indices`, an odometer over mixed-radix digits.
 */
module NonDet {
  import opened Options
  import opened NonEmptyVec

  /** `m` zeroes. */
  function Zeros(m: nat): (z: seq<nat>)
    ensures |z| == m && forall i :: 0 <= i < m ==> z[i] == 0
  {
    seq(m, _ => 0)
  }

  /** `Vec::resize(n, 0)`: the first n indices, missing ones read as zero. */
  function Resize(xs: seq<nat>, n: nat): (r: seq<nat>)
    ensures |r| == n
    ensures forall i :: 0 <= i < n ==> r[i] == if i < |xs| then xs[i] else 0
  {
    if n <= |xs| then xs[..n] else xs + Zeros(n - |xs|)
  }

  /**
   * The increment `incr_choice_indices` performs, digit by digit from the
   * last: bump the last digit; if it is still below its count that is the
   * answer, otherwise it becomes 0 and the carry moves to the digits before
   * it.  When every digit overflows there is no next vector (see
   * IncrOverflow); an in-range vector steps to an in-range vector.
   */
  function Incr(x: seq<nat>, nc: seq<nat>): (r: Option<seq<nat>>)
    requires |x| == |nc|
    ensures r.Some? ==> |r.value| == |x|
    ensures r.Some? && InRange(x, nc) ==> InRange(r.value, nc)
    decreases |x|
  {
    if |x| == 0 then None
    else
      var n := |x| - 1;
      if x[n] + 1 < nc[n] then Some(x[..n] + [x[n] + 1])
      else match Incr(x[..n], nc[..n])
        case None => None
        case Some(p) => Some(p + [0])
  }

  /** There is no next vector exactly when every digit is at or beyond its last value. */
  lemma {:induction false} IncrOverflow(x: seq<nat>, nc: seq<nat>)
    requires |x| == |nc|
    ensures Incr(x, nc).None? <==> forall i :: 0 <= i < |x| ==> x[i] + 1 >= nc[i]
    decreases |x|
  {
    if |x| > 0 {
      var n := |x| - 1;
      IncrOverflow(x[..n], nc[..n]);
      assert forall i :: 0 <= i < n ==> x[..n][i] == x[i] && nc[..n][i] == nc[i];
    }
  }

  /** Resizing to the length a vector already has keeps it. */
  lemma ResizeSame(xs: seq<nat>, n: nat)
    requires |xs| == n
    ensures Resize(xs, n) == xs
  {
    assert xs[..n] == xs;
  }

  /** A result followed by m zeroed digits. */
  function Shift(o: Option<seq<nat>>, m: nat): Option<seq<nat>>
  {
    match o
    case None => None
    case Some(p) => Some(p + Zeros(m))
  }

  lemma ShiftShift(o: Option<seq<nat>>, m: nat)
    ensures Shift(Shift(o, 1), m) == Shift(o, m + 1)
  {
    if o.Some? {
      assert o.value + Zeros(1) + Zeros(m) == o.value + Zeros(m + 1);
    }
  }

  /**
   * `incr_choice_indices`: copies the indices, resizes them to the number
   * of choices, then runs the carry loop from the last digit.
   */
  method IncrChoiceIndices(indices: seq<nat>, numChoices: seq<nat>) returns (r: Option<seq<nat>>)
    ensures r == Incr(Resize(indices, |numChoices|), numChoices)
  {
    ghost var x := Resize(indices, |numChoices|);
    var res := Resize(indices, |numChoices|);
    var ix := |numChoices|;
    assert x[..ix] == x && numChoices[..ix] == numChoices;
    assert Shift(Incr(x, numChoices), 0) == Incr(x, numChoices) by {
      if Incr(x, numChoices).Some? {
        assert Incr(x, numChoices).value + Zeros(0) == Incr(x, numChoices).value;
      }
    }
    while ix > 0
      invariant 0 <= ix <= |numChoices|
      invariant res == x[..ix] + Zeros(|numChoices| - ix)
      invariant Incr(x, numChoices) == Shift(Incr(x[..ix], numChoices[..ix]), |numChoices| - ix)
    {
      ix := ix - 1;
      assert x[..ix + 1][..ix] == x[..ix] && numChoices[..ix + 1][..ix] == numChoices[..ix];
      res := res[ix := res[ix] + 1];
      if res[ix] < numChoices[ix] {
        assert res == x[..ix] + [x[ix] + 1] + Zeros(|numChoices| - ix - 1);
        return Some(res);
      } else {
        res := res[ix := 0];
        assert res == x[..ix] + Zeros(|numChoices| - ix);
        assert Zeros(1) == [0];
        assert Incr(x[..ix + 1], numChoices[..ix + 1]) == Shift(Incr(x[..ix], numChoices[..ix]), 1);
        ShiftShift(Incr(x[..ix], numChoices[..ix]), |numChoices| - ix - 1);
      }
    }
    return None;
  }

  // ---- Mixed-radix reading of index vectors -------------------------------

  /** Every count is at least one, as the length of a non-empty vector is. */
  predicate Positive(nc: seq<nat>)
  {
    forall i :: 0 <= i < |nc| ==> nc[i] > 0
  }

  /** Every index is below its count. */
  predicate InRange(x: seq<nat>, nc: seq<nat>)
  {
    |x| == |nc| && forall i :: 0 <= i < |x| ==> x[i] < nc[i]
  }

  /** The number of index vectors: the product of the counts. */
  function Total(nc: seq<nat>): nat
    decreases |nc|
  {
    if |nc| == 0 then 1 else Total(nc[..|nc| - 1]) * nc[|nc| - 1]
  }

  /** The position of an index vector in lexicographic order, the last digit varying fastest. */
  function Rank(x: seq<nat>, nc: seq<nat>): nat
    requires |x| == |nc|
    decreases |x|
  {
    if |x| == 0 then 0 else Rank(x[..|x| - 1], nc[..|nc| - 1]) * nc[|nc| - 1] + x[|x| - 1]
  }

  lemma MulLe(x: nat, y: nat, c: nat)
    requires x <= y
    ensures x * c <= y * c
  {
    var z := y - x;
    assert y * c == x * c + z * c;
  }

  /** Multiplication by a common factor preserves strict order only when the factors were ordered. */
  lemma MulStrict(x: nat, y: nat, c: nat)
    ensures x * c < y * c ==> x < y
  {
    if y <= x {
      MulLe(y, x, c);
    }
  }

  /** Euclidean division undoes `a * c + d` for a digit d below c. */
  lemma DivMod(a: nat, c: nat, d: nat)
    requires d < c
    ensures (a * c + d) / c == a && (a * c + d) % c == d
  {
    var q, r := (a * c + d) / c, (a * c + d) % c;
    assert q * c + r == a * c + d;
    assert (q + 1) * c == q * c + c && (a + 1) * c == a * c + c;
    MulStrict(a, q + 1, c);
    MulStrict(q, a + 1, c);
  }

  /** Appending a digit below c to a position below t stays below t * c. */
  lemma DigitBound(a: nat, t: nat, c: nat, d: nat)
    requires a < t && d < c
    ensures a * c + d < t * c
  {
    MulLe(a + 1, t, c);
    assert (a + 1) * c == a * c + c;
  }

  lemma TotalPositive(nc: seq<nat>)
    requires Positive(nc)
    ensures Total(nc) > 0
    decreases |nc|
  {
    if |nc| > 0 {
      TotalPositive(nc[..|nc| - 1]);
    }
  }

  /** The index vector at a position: its digits in the counts' mixed radix. */
  function Unrank(k: nat, nc: seq<nat>): (x: seq<nat>)
    requires Positive(nc)
    ensures |x| == |nc|
    ensures k < Total(nc) ==> InRange(x, nc)
    decreases |nc|
  {
    if |nc| == 0 then []
    else
      var n := |nc| - 1;
      var prev := Unrank(k / nc[n], nc[..n]);
      assert k < Total(nc) ==> k / nc[n] < Total(nc[..n]) by {
        MulStrict(k / nc[n], Total(nc[..n]), nc[n]);
      }
      prev + [k % nc[n]]
  }

  /** In-range vectors have positions below the total. */
  lemma {:induction false} RankBound(x: seq<nat>, nc: seq<nat>)
    requires InRange(x, nc)
    ensures Rank(x, nc) < Total(nc)
    decreases |x|
  {
    if |x| > 0 {
      var n := |x| - 1;
      RankBound(x[..n], nc[..n]);
      DigitBound(Rank(x[..n], nc[..n]), Total(nc[..n]), nc[n], x[n]);
    }
  }

  /** Reading an in-range vector's position back gives the vector. */
  lemma {:induction false} UnrankRank(x: seq<nat>, nc: seq<nat>)
    requires InRange(x, nc)
    ensures Positive(nc) && Unrank(Rank(x, nc), nc) == x
    decreases |x|
  {
    if |x| > 0 {
      var n := |x| - 1;
      UnrankRank(x[..n], nc[..n]);
      DivMod(Rank(x[..n], nc[..n]), nc[n], x[n]);
      assert x == x[..n] + [x[n]];
    }
  }

  /** The digits before the last of a position below the total form a position below the shorter total. */
  lemma UnrankPrefix(k: nat, nc: seq<nat>)
    requires Positive(nc) && |nc| > 0 && k < Total(nc)
    ensures k / nc[|nc| - 1] < Total(nc[..|nc| - 1])
  {
    var n := |nc| - 1;
    DivLess(k, Total(nc[..n]), nc[n]);
  }

  /** Dividing a number below t * c by c leaves a quotient below t. */
  lemma DivLess(k: nat, t: nat, c: nat)
    requires c > 0 && k < t * c
    ensures k / c < t
  {
    DivBelow(k, c);
    MulStrict(k / c, t, c);
  }

  lemma DivBelow(k: nat, c: nat)
    requires c > 0
    ensures k / c * c <= k && k / c * c + k % c == k
  {
  }

  /** Every position below the total is the position of its vector. */
  lemma {:induction false} RankUnrank(k: nat, nc: seq<nat>)
    requires Positive(nc) && k < Total(nc)
    ensures Rank(Unrank(k, nc), nc) == k
    decreases |nc|
  {
    if |nc| > 0 {
      var n, c := |nc| - 1, nc[|nc| - 1];
      var x := Unrank(k, nc);
      assert x[..n] == Unrank(k / c, nc[..n]) && x[n] == k % c;
      UnrankPrefix(k, nc);
      RankUnrank(k / c, nc[..n]);
      assert Rank(x, nc) == Rank(x[..n], nc[..n]) * c + x[n];
      DivBelow(k, c);
    }
  }

  /** Rank and total of a vector with one more digit. */
  lemma RankSnoc(p: seq<nat>, q: seq<nat>, d: nat, c: nat)
    requires |p| == |q|
    ensures Rank(p + [d], q + [c]) == Rank(p, q) * c + d
    ensures Total(q + [c]) == Total(q) * c
  {
    assert (p + [d])[..|p|] == p && (q + [c])[..|q|] == q;
  }

  /** Without a carry the last digit goes up by one. */
  lemma IncrNoCarry(p: seq<nat>, q: seq<nat>, d: nat, c: nat)
    requires InRange(p, q) && d + 1 < c
    ensures Incr(p + [d], q + [c]) == Some(p + [d + 1])
    ensures InRange(p + [d + 1], q + [c])
    ensures Rank(p + [d + 1], q + [c]) == Rank(p + [d], q + [c]) + 1 < Total(q + [c])
  {
    assert (p + [d])[..|p|] == p && (q + [c])[..|q|] == q;
    RankSnoc(p, q, d, c);
    RankSnoc(p, q, d + 1, c);
    RankBound(p, q);
    DigitBound(Rank(p, q), Total(q), c, d + 1);
  }

  /** With a carry the last digit was the largest, so the position after it is the next multiple of c. */
  lemma IncrCarry(p: seq<nat>, q: seq<nat>, d: nat, c: nat)
    requires InRange(p, q) && d < c && d + 1 >= c
    requires Incr(p, q).Some? <==> Rank(p, q) + 1 < Total(q)
    requires Incr(p, q).Some? ==> InRange(Incr(p, q).value, q) && Rank(Incr(p, q).value, q) == Rank(p, q) + 1
    ensures Incr(p + [d], q + [c]) == Shift(Incr(p, q), 1)
    ensures Incr(p, q).Some? <==> Rank(p + [d], q + [c]) + 1 < Total(q + [c])
    ensures Incr(p, q).Some? ==>
      InRange(Incr(p, q).value + [0], q + [c]) && Rank(Incr(p, q).value + [0], q + [c]) == Rank(p + [d], q + [c]) + 1
  {
    CarrySnoc(p, q, d, c);
    RankSnoc(p, q, d, c);
    RankBound(p, q);
    CarryArith(Rank(p, q), Total(q), c, d);
    if Incr(p, q).Some? {
      RankSnoc(Incr(p, q).value, q, 0, c);
    }
  }

  /** A carry out of the last digit leaves it 0 and increments the digits before it. */
  lemma CarrySnoc(p: seq<nat>, q: seq<nat>, d: nat, c: nat)
    requires |p| == |q| && d + 1 >= c
    ensures Incr(p + [d], q + [c]) == Shift(Incr(p, q), 1)
  {
    assert (p + [d])[..|p|] == p && (q + [c])[..|q|] == q;
    assert Zeros(1) == [0];
  }

  /** The arithmetic of a carry out of the last digit d = c - 1 at position r below t. */
  lemma CarryArith(r: nat, t: nat, c: nat, d: nat)
    requires r < t && d + 1 == c
    ensures (r + 1) * c == r * c + d + 1
    ensures r + 1 < t ==> (r + 1) * c < t * c
    ensures r + 1 == t ==> r * c + d + 1 == t * c
  {
    if r + 1 < t {
      MulLe(r + 2, t, c);
      assert (r + 2) * c == (r + 1) * c + c;
    }
  }

  /**
   * The increment steps to the next position: it succeeds exactly when the
   * vector is not the last, and then returns the in-range vector one
   * position further.
   */
  lemma {:induction false} IncrRank(x: seq<nat>, nc: seq<nat>)
    requires InRange(x, nc)
    ensures Incr(x, nc).Some? <==> Rank(x, nc) + 1 < Total(nc)
    ensures Incr(x, nc).Some? ==> InRange(Incr(x, nc).value, nc) && Rank(Incr(x, nc).value, nc) == Rank(x, nc) + 1
    decreases |x|
  {
    if |x| > 0 {
      var n := |x| - 1;
      var p, q, d, c := x[..n], nc[..n], x[n], nc[n];
      assert x == p + [d] && nc == q + [c];
      if d + 1 < c {
        IncrNoCarry(p, q, d, c);
      } else {
        IncrRank(p, q);
        IncrCarry(p, q, d, c);
      }
    }
  }

  /** The increment in terms of positions alone. */
  lemma IncrNext(x: seq<nat>, nc: seq<nat>)
    requires InRange(x, nc)
    ensures Incr(x, nc) == if Rank(x, nc) + 1 < Total(nc) then Some(Unrank(Rank(x, nc) + 1, nc)) else None
  {
    IncrRank(x, nc);
    if Incr(x, nc).Some? {
      UnrankRank(Incr(x, nc).value, nc);
    }
  }

  /** The zero vector is the first position. */
  lemma {:induction false} UnrankZero(nc: seq<nat>)
    requires Positive(nc)
    ensures Unrank(0, nc) == Zeros(|nc|)
    decreases |nc|
  {
    if |nc| > 0 {
      UnrankZero(nc[..|nc| - 1]);
    }
  }

  /**
   * The documented walk with counts [3, 2, 1]: from each in-range vector
   * the next one is [0, 1, 0], [1, 0, 0], [1, 1, 0], [2, 0, 0], [2, 1, 0]
   * in turn, and after [2, 1, 0] there is none.
   */
  lemma IncrDocExample(a: nat, b: nat)
    requires a < 3 && b < 2
    ensures Incr([a, b, 0], [3, 2, 1]) == if b == 0 then Some([a, 1, 0]) else if a < 2 then Some([a + 1, 0, 0]) else None
  {
    var nc: seq<nat> := [3, 2, 1];
    assert nc[..2] == [3, 2] && nc[..2][..1] == [3] && nc[..2][..1][..0] == [];
    var x: seq<nat> := [a, b, 0];
    assert x[..2] == [a, b] && x[..2][..1] == [a] && x[..2][..1][..0] == [];
    if b == 0 {
      assert [a] + [1] + [0] == [a, 1, 0];
    } else if a < 2 {
      assert Incr([a], [3]) == Some([a + 1]) by {
        assert [a][..0] + [a + 1] == [a + 1];
      }
      assert Incr([a, b], [3, 2]) == Some([a + 1, 0]) by {
        assert [a, b][..1] == [a] && [3, 2][..1] == [3];
        assert [a + 1] + [0] == [a + 1, 0];
      }
      assert [a + 1, 0] + [0] == [a + 1, 0, 0];
    } else {
      assert Incr([a], [3]) == None by {
        assert [a][..0] == [] && [3][..0] == [];
      }
      assert Incr([a, b], [3, 2]) == None by {
        assert [a, b][..1] == [a] && [3, 2][..1] == [3];
      }
    }
  }


  // ---- Witness and combine -------------------------------------------------

  /** The choice index used for the k-th extraction: a missing index reads as the first choice. */
  function ChoiceAt(indices: seq<nat>, k: nat): nat
  {
    if k < |indices| then indices[k] else 0
  }

  /**
   * `Witness`: the choice index for each extraction and the number of
   * choices each extraction had, recorded as the closure runs.
   */
  class Witness {
    var indices: seq<nat>
    var numChoices: seq<nat>

    constructor ()
      ensures indices == [] && numChoices == []
    {
      indices := [];
      numChoices := [];
    }

    /**
     * `Witness::of`: the next extraction takes the choice its index names
     * and records how many choices there were.  An index past the choices
     * would panic in `NonEmpty::index`, so the caller must rule it out.
     */
    method Of<V>(m: NonEmpty<V>) returns (v: V)
      requires ChoiceAt(indices, |numChoices|) < Len(m)
      modifies this
      ensures indices == old(indices) && numChoices == old(numChoices) + [Len(m)]
      ensures v == Index(m, ChoiceAt(indices, |old(numChoices)|))
    {
      var mIx := |numChoices|;
      var choiceIx := if mIx < |indices| then indices[mIx] else 0;
      numChoices := numChoices + [Len(m)];
      v := Index(m, choiceIx);
    }
  }

  /**
   * A closure passed to `NonDet::combine`, with a fixed sequence of
   * extractions: it extracts from each computation of `subs` in order and
   * builds its result from the extracted values.
   */
  datatype Script<!V, A> = Script(subs: seq<NonEmpty<V>>, finish: seq<V> -> A)

  /** The number of choices of each extraction. */
  function Counts<V>(subs: seq<NonEmpty<V>>): (nc: seq<nat>)
    ensures |nc| == |subs| && Positive(nc)
  {
    seq(|subs|, k requires 0 <= k < |subs| => Len(subs[k]))
  }

  /** Every extraction's choice index is within its choices. */
  predicate Fits<V>(subs: seq<NonEmpty<V>>, indices: seq<nat>)
  {
    forall k :: 0 <= k < |subs| ==> ChoiceAt(indices, k) < Len(subs[k])
  }

  /** The values the extractions return under the given indices. */
  function Picks<V>(subs: seq<NonEmpty<V>>, indices: seq<nat>): (vs: seq<V>)
    requires Fits(subs, indices)
    ensures |vs| == |subs|
  {
    seq(|subs|, k requires 0 <= k < |subs| => Index(subs[k], ChoiceAt(indices, k)))
  }

  /** Runs the closure against the witness: one `Witness::of` per extraction. */
  method RunScript<V, A>(s: Script<V, A>, w: Witness) returns (a: A)
    requires w.numChoices == [] && Fits(s.subs, w.indices)
    modifies w
    ensures w.indices == old(w.indices) && w.numChoices == Counts(s.subs)
    ensures a == s.finish(Picks(s.subs, w.indices))
  {
    var seen: seq<V> := [];
    var k := 0;
    while k < |s.subs|
      invariant 0 <= k <= |s.subs|
      invariant w.indices == old(w.indices)
      invariant w.numChoices == Counts(s.subs)[..k]
      invariant seen == Picks(s.subs, w.indices)[..k]
    {
      var v := w.Of(s.subs[k]);
      seen := seen + [v];
      k := k + 1;
    }
    assert seen == Picks(s.subs, w.indices);
    assert w.numChoices == Counts(s.subs);
    a := s.finish(seen);
  }

  /** The k-th result `combine` produces: the closure's value under the k-th index vector in lexicographic order. */
  function Outcome<V, A>(s: Script<V, A>, k: nat): A
    requires k < Total(Counts(s.subs))
  {
    s.finish(Picks(s.subs, Unrank(k, Counts(s.subs))))
  }

  /** The zero vector and the empty one select the same values. */
  lemma PicksFirst<V>(subs: seq<NonEmpty<V>>)
    ensures Fits(subs, []) && Fits(subs, Unrank(0, Counts(subs)))
    ensures Picks(subs, []) == Picks(subs, Unrank(0, Counts(subs)))
  {
    UnrankZero(Counts(subs));
  }

  /** What the increment returns after the vector at position pos: the next vector, if there is one. */
  function Following(nc: seq<nat>, pos: nat): Option<seq<nat>>
    requires Positive(nc)
  {
    if pos + 1 < Total(nc) then Some(Unrank(pos + 1, nc)) else None
  }

  /** `incr_choice_indices` applied to the vector at position pos steps to the next position. */
  lemma StepNext(nc: seq<nat>, pos: nat)
    requires Positive(nc) && pos < Total(nc)
    ensures Incr(Unrank(pos, nc), nc) == Following(nc, pos)
    ensures Incr(Resize(Unrank(pos, nc), |nc|), nc) == Following(nc, pos)
  {
    var x := Unrank(pos, nc);
    ResizeSame(x, |nc|);
    IncrNext(x, nc);
    RankUnrank(pos, nc);
  }

  /** The vector at an existing position selects a choice within every computation. */
  lemma FitsUnrank<V>(subs: seq<NonEmpty<V>>, pos: nat)
    requires pos < Total(Counts(subs))
    ensures Fits(subs, Unrank(pos, Counts(subs)))
  {
  }

  /** The results so far are the closure's values over the first index vectors, in order. */
  ghost predicate Produced<V, A>(s: Script<V, A>, results: NonEmpty<A>)
  {
    Len(results) <= Total(Counts(s.subs)) &&
    forall k :: 0 <= k < Len(results) ==> Index(results, k) == Outcome(s, k)
  }

  /** Pushing the value of the next index vector keeps the results in order. */
  lemma PushOutcome<V, A>(s: Script<V, A>, results: NonEmpty<A>, value: A)
    requires Produced(s, results) && Len(results) < Total(Counts(s.subs))
    requires value == Outcome(s, Len(results))
    ensures Produced(s, NonEmpty(results.zero, results.rest + [value]))
  {
    IndexPush(results, value);
  }

  /** The closure run under the vector at position pos produces the result at that position. */
  method RunAt<V, A>(s: Script<V, A>, w: Witness, ghost pos: nat) returns (value: A)
    requires pos < Total(Counts(s.subs)) && w.indices == Unrank(pos, Counts(s.subs)) && w.numChoices == []
    modifies w
    ensures w.indices == old(w.indices) && w.numChoices == Counts(s.subs)
    ensures value == Outcome(s, pos)
  {
    FitsUnrank(s.subs, pos);
    value := RunScript(s, w);
  }

  /** The increment of the empty indices steps from the first position. */
  lemma FirstFollowing(nc: seq<nat>)
    requires Positive(nc)
    ensures Incr(Resize([], |nc|), nc) == Following(nc, 0)
  {
    var z := Resize([], |nc|);
    UnrankZero(nc);
    TotalPositive(nc);
    assert z == Unrank(0, nc);
    StepNext(nc, 0);
  }

  /** The closure's value under the empty indices is the first result. */
  lemma FirstProduced<V, A>(s: Script<V, A>, first: A)
    requires Fits(s.subs, []) && first == s.finish(Picks(s.subs, []))
    ensures Produced(s, NonEmpty(first, []))
  {
    TotalPositive(Counts(s.subs));
    PicksFirst(s.subs);
  }

  /** The first run of `combine`: every first choice, then the increment of the empty indices. */
  method FirstRun<V, A>(s: Script<V, A>, w: Witness) returns (results: NonEmpty<A>, next: Option<seq<nat>>)
    requires w.indices == [] && w.numChoices == []
    modifies w
    ensures w.numChoices == Counts(s.subs) && Len(results) == 1 && Produced(s, results)
    ensures next == Following(Counts(s.subs), 0)
  {
    PicksFirst(s.subs);
    var first := RunScript(s, w);
    FirstProduced(s, first);
    results := NonEmpty(first, []);
    FirstFollowing(Counts(s.subs));
    next := IncrChoiceIndices(w.indices, w.numChoices);
  }

  /** One turn of the loop of `combine`: run under the next indices, record the result, increment. */
  method NextRun<V, A>(s: Script<V, A>, w: Witness, results: NonEmpty<A>, next: Option<seq<nat>>, ghost pos: nat)
    returns (results': NonEmpty<A>, next': Option<seq<nat>>)
    requires next.Some? && next == Following(Counts(s.subs), pos)
    requires w.numChoices == Counts(s.subs) && Len(results) == pos + 1 && Produced(s, results)
    modifies w
    ensures w.numChoices == Counts(s.subs) && Len(results') == pos + 2 && Produced(s, results')
    ensures next' == Following(Counts(s.subs), pos + 1)
  {
    w.indices := next.value;
    w.numChoices := [];
    var value := RunAt(s, w, pos + 1);
    PushOutcome(s, results, value);
    results' := NonEmpty(results.zero, results.rest + [value]);
    StepNext(Counts(s.subs), pos + 1);
    next' := IncrChoiceIndices(w.indices, w.numChoices);
  }

  /**
   * `NonDet::combine`: runs the closure with no indices (every first
   * choice), then keeps stepping the indices with `incr_choice_indices` and
   * running it again until the increment runs out.  The results are the
   * closure's values over every combination of choices, in lexicographic
   * order of the index vectors, one per combination.
   */
  method Combine<V, A>(s: Script<V, A>) returns (results: NonEmpty<A>)
    ensures Len(results) == Total(Counts(s.subs))
    ensures forall k :: 0 <= k < Len(results) ==> Index(results, k) == Outcome(s, k)
  {
    var w := new Witness();
    var next;
    results, next := FirstRun(s, w);
    ghost var pos := 0;
    while next.Some?
      invariant w.numChoices == Counts(s.subs)
      invariant Len(results) == pos + 1 && Produced(s, results)
      invariant next == Following(Counts(s.subs), pos)
      decreases Total(Counts(s.subs)) - pos
    {
      results, next := NextRun(s, w, results, next, pos);
      pos := pos + 1;
    }
  }
}

/** The example closure of the unit test in src/nondet.rs, which combines three digits. */
module NonDetExample {
  import opened NonEmptyVec
  import opened NonDet

  /** Hundreds from 0..3, tens from 0..2 and units from 0..1, each offered in increasing order. */
  function Numbers(): Script<nat, nat>
  {
    Script([NonEmpty(0, [1, 2, 3]), NonEmpty(0, [1, 2]), NonEmpty(0, [1])],
      seen => if |seen| == 3 then seen[0] * 100 + seen[1] * 10 + seen[2] else 0)
  }

  /** The k-th index vector over counts [4, 3, 2] holds the mixed-radix digits of k. */
  lemma NumbersDigits(k: nat)
    requires k < 24
    ensures Unrank(k, [4, 3, 2]) == [k / 6, k / 2 % 3, k % 2]
  {
    var nc: seq<nat> := [4, 3, 2];
    assert nc[..2] == [4, 3] && nc[..2][..1] == [4] && nc[..2][..1][..0] == [];
    assert Unrank(k / 2 / 3, [4]) == [k / 2 / 3 % 4] by {
      assert [4][..0] == [];
    }
    assert k / 2 / 3 == k / 6;
  }

  /** Each result is the number whose digits are the k-th index vector. */
  lemma NumbersOutcome(k: nat)
    requires k < 24
    ensures Total(Counts(Numbers().subs)) == 24
    ensures Outcome(Numbers(), k) == 100 * (k / 6) + 10 * (k / 2 % 3) + k % 2
  {
    var subs := Numbers().subs;
    assert Counts(subs) == [4, 3, 2];
    assert [4, 3, 2][..2] == [4, 3] && [4, 3][..1] == [4] && [4][..0] == [];
    NumbersDigits(k);
    assert Picks(subs, Unrank(k, [4, 3, 2])) == [k / 6, k / 2 % 3, k % 2];
  }

  /** The 24 results the unit test expects, in the order it expects them. */
  function Expected(): seq<nat>
  {
    [000, 001, 010, 011, 020, 021,
     100, 101, 110, 111, 120, 121,
     200, 201, 210, 211, 220, 221,
     300, 301, 310, 311, 320, 321]
  }

  /** The list written as digits: position k holds the number whose digits are those of k in radix [4, 3, 2]. */
  lemma ExpectedAt(k: nat)
    requires k < 24
    ensures Expected()[k] == 100 * (k / 6) + 10 * (k / 2 % 3) + k % 2
  {
    var h, t, u := k / 6, k / 2 % 3, k % 2;
    assert k == 6 * h + 2 * t + u;
    assert h < 4 && t < 3 && u < 2;
  }

  /** `combine` over the example closure yields exactly the unit test's list. */
  lemma NumbersOutcomes()
    ensures Total(Counts(Numbers().subs)) == 24 == |Expected()|
    ensures forall k :: 0 <= k < 24 ==> Outcome(Numbers(), k) == Expected()[k]
  {
    NumbersOutcome(0);
    forall k | 0 <= k < 24
      ensures Outcome(Numbers(), k) == Expected()[k]
    {
      NumbersOutcome(k);
      ExpectedAt(k);
    }
  }

  /** The unit test itself: combining the example closure and converting the results to a vector gives the expected list. */
  method NumbersTest() returns (v: seq<nat>)
    ensures v == Expected()
  {
    var results := Combine(Numbers());
    v := ToVec(results);
    NumbersOutcomes();
    assert forall k :: 0 <= k < |v| ==> v[k] == Expected()[k];
  }
}
