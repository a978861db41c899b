/**
 * The first prototype, src/hh1_no_tree.rs, which has no shrink trees: a
 * generator reads a random source and a shrink budget (`Shrink`), and a
 * generator built with `Gen::of` runs a closure that extracts values from
 * other generators through an `Extract`, which hands each extraction a
 * split of the source and a share of the budget.
 */
module NoTree {
  import opened Options
  import opened RandomSource

  /** `Shrink`: the size parameter and the number of shrink steps granted. */
  datatype Shrink = Shrink(size: nat, shrinks: nat)

  /** A generator of this prototype: a value from a source and a budget. */
  type Gen<A> = (Random, Shrink) -> A

  /**
   * A closure passed to `Gen::of`, with a fixed sequence of extractions: it
   * extracts from each generator of `gens` in order and builds its result
   * from the extracted values.
   */
  datatype Script<!V, A> = Script(gens: seq<Gen<V>>, finish: seq<V> -> A)

  /** The shrink steps granted by a list of budgets, summed. */
  function Total(v: seq<Shrink>): nat
    decreases |v|
  {
    if |v| == 0 then 0 else Total(v[..|v| - 1]) + v[|v| - 1].shrinks
  }

  /**
   * The budgets `shrink_vec` hands out, as written: every call-site gets
   * the quotient of the steps by the count, and the one call-site whose
   * position equals the remainder gets one step more.
   */
  function AsWrittenShares(base: Shrink, count: nat): (v: seq<Shrink>)
    requires count > 0
    ensures |v| == count && forall i :: 0 <= i < count ==> v[i].size == base.size
    ensures forall i :: 0 <= i < count ==> (v[i].shrinks > base.shrinks / count <==> i == base.shrinks % count)
  {
    seq(count, i => Shrink(base.size, base.shrinks / count + if i == base.shrinks % count then 1 else 0))
  }

  /**
   * The budgets `shrink_vec` is meant to hand out: the quotient each, and
   * one step more for each of the first `remainder` call-sites, so that
   * the steps are shared out exactly.  No call-site, no budgets.
   */
  function FairShares(base: Shrink, count: nat): (v: seq<Shrink>)
    ensures |v| == count && forall i :: 0 <= i < count ==> v[i].size == base.size
    ensures forall i :: 0 <= i < count ==> (v[i].shrinks > base.shrinks / count <==> i < base.shrinks % count)
  {
    if count == 0 then []
    else seq(count, i => Shrink(base.size, base.shrinks / count + if i < base.shrinks % count then 1 else 0))
  }

  /** The same budget for each of n call-sites. */
  function Repeat(s: Shrink, n: nat): (v: seq<Shrink>)
    ensures |v| == n && forall i :: 0 <= i < n ==> v[i] == s
  {
    seq(n, _ => s)
  }

  /**
   * `Extract::shrink_vec`: a counted loop pushing one budget per call-site.
   * A count of 0 is a division by zero in the source, a panic here `None`.
   */
  method ShrinkVec(base: Shrink, count: nat) returns (v: Option<seq<Shrink>>)
    ensures v.None? <==> count == 0
    ensures v.Some? ==> count > 0 && v.value == AsWrittenShares(base, count)
  {
    if count == 0 {
      return None;
    }
    var divv := base.shrinks / count;
    var modd := base.shrinks % count;
    var shares: seq<Shrink> := [];
    for i := 0 to count
      invariant |shares| == i
      invariant forall j :: 0 <= j < i ==> shares[j] == AsWrittenShares(base, count)[j]
    {
      var s := divv + if i == modd then 1 else 0;
      shares := shares + [Shrink(base.size, s)];
    }
    return Some(shares);
  }

  /** The corrected `shrink_vec`: the bump goes to every position below the remainder. */
  method ShrinkVecFair(base: Shrink, count: nat) returns (v: seq<Shrink>)
    ensures v == FairShares(base, count)
  {
    if count == 0 {
      return [];
    }
    var divv := base.shrinks / count;
    var modd := base.shrinks % count;
    v := [];
    for i := 0 to count
      invariant |v| == i
      invariant forall j :: 0 <= j < i ==> v[j] == FairShares(base, count)[j]
    {
      var s := divv + if i < modd then 1 else 0;
      v := v + [Shrink(base.size, s)];
    }
  }

  /**
   * The shape of the budgets as written: one per call-site, all of the
   * parent's size, each the quotient except the one at the remainder,
   * which is one above it.
   */
  lemma AsWrittenSharesShape(base: Shrink, count: nat)
    requires count > 0
    ensures var v := AsWrittenShares(base, count);
      var q := base.shrinks / count;
      |v| == count &&
      (forall i :: 0 <= i < count ==> v[i].size == base.size) &&
      (forall i :: 0 <= i < count ==> (v[i].shrinks == q + 1 <==> i == base.shrinks % count)) &&
      (forall i :: 0 <= i < count ==> q <= v[i].shrinks <= q + 1)
  {
  }

  /** The last entry of a prefix adds its steps to the prefix before it. */
  lemma TotalPrefix(v: seq<Shrink>, n: nat)
    requires 0 < n <= |v|
    ensures Total(v[..n]) == Total(v[..n - 1]) + v[n - 1].shrinks
  {
    assert v[..n][..n - 1] == v[..n - 1];
  }

  /** Budgets of q steps each except one more at position m: a prefix of n of them grants q * n, plus one once it covers m. */
  lemma {:induction false} OneBumpTotal(v: seq<Shrink>, q: nat, m: nat, n: nat)
    requires n <= |v|
    requires forall i :: 0 <= i < |v| ==> v[i].shrinks == q + if i == m then 1 else 0
    ensures Total(v[..n]) == q * n + if n > m then 1 else 0
    decreases n
  {
    if n > 0 {
      OneBumpTotal(v, q, m, n - 1);
      TotalPrefix(v, n);
    }
  }

  /** Budgets of q steps each and one more below position m: a prefix of n of them grants q * n plus the bumps it covers. */
  lemma {:induction false} LeadingBumpsTotal(v: seq<Shrink>, q: nat, m: nat, n: nat)
    requires n <= |v|
    requires forall i :: 0 <= i < |v| ==> v[i].shrinks == q + if i < m then 1 else 0
    ensures Total(v[..n]) == q * n + if n < m then n else m
    decreases n
  {
    if n > 0 {
      LeadingBumpsTotal(v, q, m, n - 1);
      TotalPrefix(v, n);
    }
  }

  /** Euclidean division of the steps by the count. */
  lemma Euclid(a: nat, c: nat)
    requires c > 0
    ensures a / c * c + a % c == a && a % c < c
  {
  }

  /**
   * As written, the budgets add up to the quotient times the count plus
   * one, which is the parent's budget only when the remainder is 1: with
   * remainder 0 a step is invented, with a larger remainder steps are lost.
   */
  lemma AsWrittenSharesTotal(base: Shrink, count: nat)
    requires count > 0
    ensures var t := Total(AsWrittenShares(base, count));
      t == base.shrinks / count * count + 1 &&
      (t == base.shrinks <==> base.shrinks % count == 1)
  {
    var v := AsWrittenShares(base, count);
    var q, m := base.shrinks / count, base.shrinks % count;
    Euclid(base.shrinks, count);
    OneBumpTotal(v, q, m, count);
    assert v[..count] == v;
    assert q * count == count * q;
  }

  /** Two call-sites sharing no steps at all: as written, one of them is granted a step. */
  lemma AsWrittenInventsStep()
    ensures Total(AsWrittenShares(Shrink(0, 0), 2)) == 1
  {
    AsWrittenSharesTotal(Shrink(0, 0), 2);
  }

  /**
   * The corrected budgets share the parent's steps out exactly, each
   * call-site gets the quotient or one more, and the larger ones come first.
   */
  lemma FairSharesTotal(base: Shrink, count: nat)
    requires count > 0
    ensures var v := FairShares(base, count);
      var q := base.shrinks / count;
      |v| == count && Total(v) == base.shrinks &&
      (forall i :: 0 <= i < count ==> v[i].size == base.size && q <= v[i].shrinks <= q + 1) &&
      (forall i, j :: 0 <= i <= j < count ==> v[j].shrinks <= v[i].shrinks)
  {
    var v := FairShares(base, count);
    var q, m := base.shrinks / count, base.shrinks % count;
    Euclid(base.shrinks, count);
    LeadingBumpsTotal(v, q, m, count);
    assert v[..count] == v;
    assert q * count == count * q;
  }

  /** Handing every call-site the parent's whole budget grants n times its steps. */
  lemma {:induction false} RepeatTotal(s: Shrink, n: nat)
    ensures Total(Repeat(s, n)) == n * s.shrinks
    decreases n
  {
    if n > 0 {
      RepeatTotal(s, n - 1);
      assert Repeat(s, n)[..n - 1] == Repeat(s, n - 1);
    }
  }

  /** The split of the source after k extractions: each extraction advances the parent by one split. */
  function Advance(r: Random, k: nat): Random
  {
    if k == 0 then r else Split(Advance(r, k - 1)).0
  }

  /** The source the k-th extraction runs on: the child of the k-th split. */
  function ChildRandom(r: Random, k: nat): Random
  {
    Split(Advance(r, k)).1
  }

  /** The values the extractions produce, each from its own child source and its own budget. */
  function Extracted<V>(gens: seq<Gen<V>>, r: Random, shares: seq<Shrink>): (vs: seq<V>)
    requires |shares| >= |gens|
    ensures |vs| == |gens|
  {
    seq(|gens|, i requires 0 <= i < |gens| => gens[i](ChildRandom(r, i), shares[i]))
  }

  /**
   * `Extract`: the bookkeeping of one run of a `Gen::of` closure.  It holds
   * the source, the parent's budget, the budgets planned per call-site and
   * the number of extractions so far.
   */
  class Extract {
    var rand: Random
    const extractShrink: Shrink
    var childShrinks: seq<Shrink>
    var index: nat

    /** `Extract::new`: plans the budgets with `shrink_vec`, whose division needs a count above 0. */
    constructor (rand: Random, shrink: Shrink, expectedCount: nat)
      requires expectedCount > 0
      ensures this.rand == rand && extractShrink == shrink && index == 0
      ensures childShrinks == AsWrittenShares(shrink, expectedCount)
    {
      var shares := ShrinkVec(shrink, expectedCount);
      this.rand := rand;
      extractShrink := shrink;
      childShrinks := shares.value;
      index := 0;
    }

    /** `Extract::new` with the corrected `shrink_vec`; no call-site needs no division. */
    constructor Planned(rand: Random, shrink: Shrink, expectedCount: nat)
      ensures this.rand == rand && extractShrink == shrink && index == 0
      ensures childShrinks == FairShares(shrink, expectedCount)
    {
      var shares := ShrinkVecFair(shrink, expectedCount);
      this.rand := rand;
      extractShrink := shrink;
      childShrinks := shares;
      index := 0;
    }

    /**
     * `Extract::of` as written.  It panics unless a budget is planned for
     * this extraction; the planned budget is then never read, since the
     * branch reading it requires the length to be below the index.  The
     * parent's whole budget is appended and handed to the generator, which
     * runs on the child of a split of the source.
     */
    method Of<V>(gen: Gen<V>) returns (v: V)
      requires index < |childShrinks|
      modifies this
      ensures childShrinks == old(childShrinks) + [extractShrink] && index == old(index) + 1
      ensures rand == Split(old(rand)).0 && v == gen(Split(old(rand)).1, extractShrink)
    {
      var ix := index;
      var shrink: Shrink;
      if |childShrinks| < ix {
        assert false;
      } else {
        childShrinks := childShrinks + [extractShrink];
        shrink := extractShrink;
      }
      index := index + 1;
      var split := Split(rand);
      rand := split.0;
      v := gen(split.1, shrink);
    }

    /**
     * `Extract::of` with the comparison the other way round and without the
     * opening assertion: the planned budget of this call-site is handed out
     * when there is one; an extraction nobody planned for gets the parent's
     * budget, which is appended.
     */
    method OfPlanned<V>(gen: Gen<V>) returns (v: V)
      modifies this
      ensures index == old(index) + 1 && rand == Split(old(rand)).0
      ensures old(index) < |old(childShrinks)| ==>
        childShrinks == old(childShrinks) && v == gen(Split(old(rand)).1, old(childShrinks)[old(index)])
      ensures old(index) >= |old(childShrinks)| ==>
        childShrinks == old(childShrinks) + [extractShrink] && v == gen(Split(old(rand)).1, extractShrink)
    {
      var shrink: Shrink;
      if index < |childShrinks| {
        shrink := childShrinks[index];
      } else {
        childShrinks := childShrinks + [extractShrink];
        shrink := extractShrink;
      }
      index := index + 1;
      var split := Split(rand);
      rand := split.0;
      v := gen(split.1, shrink);
    }
  }

  /**
   * The counting run of `Gen::of` for a given expected count: an `Extract`
   * on the source r with an empty budget, planned by `shrink_vec`, the
   * closure's extractions through `Extract::of`, then the number of
   * budgets the extract holds.  `None` is the division panic of
   * `shrink_vec`.  Since every extraction appends a budget to the planned
   * ones, the count that comes out is the expected count plus the number
   * of extractions.
   */
  method ProbeCount<V, A>(s: Script<V, A>, r: Random, expected: nat) returns (count: Option<nat>)
    ensures count.None? <==> expected == 0
    ensures count.Some? ==> count.value == expected + |s.gens|
  {
    var shares := ShrinkVec(Shrink(0, 0), expected);
    if shares.None? {
      return None;
    }
    var x := new Extract(r, Shrink(0, 0), expected);
    for k := 0 to |s.gens|
      invariant x.index == k && |x.childShrinks| == expected + k
    {
      var v := x.Of(s.gens[k]);
    }
    count := Some(|x.childShrinks|);
  }

  /**
   * The probe of `Gen::of` as written: it expects no call-site, so its
   * `shrink_vec` divides by zero and every `Gen::of` panics before its
   * closure runs.  The seed-0 source is the parameter r.
   */
  method GenOfProbe<V, A>(s: Script<V, A>, r: Random) returns (count: Option<nat>)
    ensures count.None?
  {
    count := ProbeCount(s, r, 0);
  }

  /**
   * The counting run with the corrected `shrink_vec` and `Extract::of`:
   * nothing is divided when no call-site is expected, and an extraction
   * beyond the planned ones gets the parent's budget appended, so the
   * count is the larger of the expected count and the number of
   * extractions.
   */
  method ProbeCountPlanned<V, A>(s: Script<V, A>, r: Random, expected: nat) returns (count: nat)
    ensures count == if expected < |s.gens| then |s.gens| else expected
  {
    var x := new Extract.Planned(r, Shrink(0, 0), expected);
    for k := 0 to |s.gens|
      invariant x.index == k
      invariant |x.childShrinks| == if k <= expected then expected else k
    {
      var v := x.OfPlanned(s.gens[k]);
    }
    count := |x.childShrinks|;
  }

  /** The corrected probe: expecting no call-site, it counts exactly the closure's extractions. */
  method GenOfProbePlanned<V, A>(s: Script<V, A>, r: Random) returns (count: nat)
    ensures count == |s.gens|
  {
    count := ProbeCountPlanned(s, r, 0);
  }

  /**
   * The generator `Gen::of` builds, run on a source and a budget, when
   * the count of call-sites is right: an `Extract` planned for them, then
   * each extraction in order.  As written, each gets the whole budget.  A
   * closure without extractions makes `shrink_vec` divide by zero (`None`).
   */
  method RunOf<V, A>(s: Script<V, A>, r: Random, shrink: Shrink) returns (result: Option<A>)
    ensures result.None? <==> |s.gens| == 0
    ensures result.Some? ==> result.value == s.finish(Extracted(s.gens, r, Repeat(shrink, |s.gens|)))
  {
    var shares := ShrinkVec(shrink, |s.gens|);
    if shares.None? {
      return None;
    }
    var x := new Extract(r, shrink, |s.gens|);
    var values: seq<V> := [];
    for k := 0 to |s.gens|
      invariant x.index == k && |x.childShrinks| == |s.gens| + k
      invariant x.rand == Advance(r, k) && x.extractShrink == shrink
      invariant |values| == k
      invariant forall i :: 0 <= i < k ==> values[i] == s.gens[i](ChildRandom(r, i), shrink)
    {
      var v := x.Of(s.gens[k]);
      values := values + [v];
    }
    assert values == Extracted(s.gens, r, Repeat(shrink, |s.gens|));
    result := Some(s.finish(values));
  }

  /**
   * The corrected generator of `Gen::of`: the count is the closure's number
   * of extractions, and each extraction gets its planned share, so the
   * shares granted add up to the parent's budget (`FairSharesTotal`).
   */
  method RunOfPlanned<V, A>(s: Script<V, A>, r: Random, shrink: Shrink) returns (result: A)
    ensures result == s.finish(Extracted(s.gens, r, FairShares(shrink, |s.gens|)))
  {
    var x := new Extract.Planned(r, shrink, |s.gens|);
    var values: seq<V> := [];
    for k := 0 to |s.gens|
      invariant x.index == k && x.childShrinks == FairShares(shrink, |s.gens|)
      invariant x.rand == Advance(r, k)
      invariant |values| == k
      invariant forall i :: 0 <= i < k ==> values[i] == s.gens[i](ChildRandom(r, i), x.childShrinks[i])
    {
      var v := x.OfPlanned(s.gens[k]);
      values := values + [v];
    }
    assert values == Extracted(s.gens, r, FairShares(shrink, |s.gens|));
    result := s.finish(values);
  }
}
