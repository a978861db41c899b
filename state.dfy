/**
 * State computations (src/state.rs): a computation maps a state to a new
 * state and a result, and `State::combine` runs a closure that extracts
 * results through a `Witness` holding the current state.
 */
module StateComputations {

  /** `Witness`: the mutable current state. */
  class Witness<S> {
    var state: S

    constructor (s: S)
      ensures state == s
    {
      state := s;
    }

    /** `Witness::of`: runs `m` on the current state, keeps the state it returns and hands back its result. */
    method Of<A>(m: S -> (S, A)) returns (result: A)
      modifies this
      ensures state == m(old(state)).0 && result == m(old(state)).1
    {
      var (newState, r) := m(state);
      state := newState;
      result := r;
    }
  }

  /**
   * A closure passed to `State::combine`, with a fixed sequence of
   * extractions: it runs each computation of `steps` in order through the
   * witness and builds its result from their results.
   */
  datatype Script<!S, !V, A> = Script(steps: seq<S -> (S, V)>, finish: seq<V> -> A)

  /** The state after running the steps in order from s, and their results. */
  function Thread<S, V>(steps: seq<S -> (S, V)>, s: S): (res: (S, seq<V>))
    ensures |res.1| == |steps|
    decreases |steps|
  {
    if |steps| == 0 then (s, [])
    else
      var prev := Thread(steps[..|steps| - 1], s);
      var last := steps[|steps| - 1](prev.0);
      (last.0, prev.1 + [last.1])
  }

  /**
   * The state computation `combine` builds: the final state and the
   * closure's result.  A closure with no extractions leaves the state as
   * it is.
   */
  function Combined<S(!new), V, A>(f: Script<S, V, A>): (c: S -> (S, A))
    ensures forall s :: |f.steps| == 0 ==> c(s).0 == s && c(s).1 == f.finish([])
  {
    assert forall s :: |f.steps| == 0 ==> Thread(f.steps, s).1 == [];
    s => (Thread(f.steps, s).0, f.finish(Thread(f.steps, s).1))
  }

  /**
   * `State::combine` applied to a state: the witness starts with it, the
   * closure's extractions go through `Witness::of` one after the other, and
   * the witness's last state is returned with the closure's result.
   */
  method RunCombined<S(!new), V, A>(f: Script<S, V, A>, s: S) returns (out: S, result: A)
    ensures (out, result) == Combined(f)(s)
  {
    var w := new Witness(s);
    var seen: seq<V> := [];
    var k := 0;
    while k < |f.steps|
      invariant 0 <= k <= |f.steps|
      invariant (w.state, seen) == Thread(f.steps[..k], s)
    {
      assert f.steps[..k + 1][..k] == f.steps[..k];
      var v := w.Of(f.steps[k]);
      seen := seen + [v];
      k := k + 1;
    }
    assert f.steps[..|f.steps|] == f.steps;
    out, result := w.state, f.finish(seen);
  }

  /** A closure that extracts nothing hands the state back unchanged. */
  lemma NoStepsKeepState<S(!new), V, A>(f: Script<S, V, A>, s: S)
    requires |f.steps| == 0
    ensures Combined(f)(s).0 == s && Combined(f)(s).1 == f.finish([])
  {
    assert Thread(f.steps, s).0 == s && Thread(f.steps, s).1 == [];
  }

  /** One more step runs on the state the earlier ones left and appends its result. */
  lemma ThreadSnoc<S, V>(steps: seq<S -> (S, V)>, st: S -> (S, V), s: S)
    ensures var prev := Thread(steps, s);
      var last := st(prev.0);
      Thread(steps + [st], s).0 == last.0 && Thread(steps + [st], s).1 == prev.1 + [last.1]
  {
    assert (steps + [st])[..|steps|] == steps;
    assert (steps + [st])[|steps|] == st;
  }

  /** Two extractions in a row: the second runs on the state the first produced. */
  lemma TwoSteps<S(!new), V, A>(f: Script<S, V, A>, s: S)
    requires |f.steps| == 2
    ensures var first := f.steps[0](s);
      var second := f.steps[1](first.0);
      Combined(f)(s).0 == second.0 && Combined(f)(s).1 == f.finish([first.1, second.1])
  {
    var first := f.steps[0](s);
    var second := f.steps[1](first.0);
    var none: seq<S -> (S, V)> := [];
    ThreadSnoc(none, f.steps[0], s);
    assert none + [f.steps[0]] == f.steps[..1];
    assert Thread(none, s).0 == s && Thread(none, s).1 == [];
    assert Thread(f.steps[..1], s).0 == first.0;
    assert Thread(f.steps[..1], s).1 == [first.1];
    ThreadSnoc(f.steps[..1], f.steps[1], s);
    assert f.steps[..1] + [f.steps[1]] == f.steps;
    assert Thread(f.steps, s).1 == [first.1, second.1];
  }

  /** Running two step sequences one after the other is running their concatenation. */
  lemma {:induction false} ThreadAppend<S, V>(a: seq<S -> (S, V)>, b: seq<S -> (S, V)>, s: S)
    ensures var ra := Thread(a, s);
      var rb := Thread(b, ra.0);
      Thread(a + b, s).0 == rb.0 && Thread(a + b, s).1 == ra.1 + rb.1
    decreases |b|
  {
    if |b| == 0 {
      assert a + b == a;
      assert Thread(b, Thread(a, s).0).1 == [];
      assert Thread(a, s).1 + [] == Thread(a, s).1;
    } else {
      var n := |b| - 1;
      assert a + b == (a + b[..n]) + [b[n]];
      assert b == b[..n] + [b[n]];
      ThreadAppend(a, b[..n], s);
      ThreadSnoc(a + b[..n], b[n], s);
      ThreadSnoc(b[..n], b[n], Thread(a, s).0);
    }
  }

  /**
   * Extracting a combined computation inside another closure is the same as
   * inlining its extractions there: the states agree, and the results are
   * those of the inlined steps with the inner closure's result in place of
   * its steps' results.
   */
  lemma Inline<S(!new), V>(pre: seq<S -> (S, V)>, inner: Script<S, V, V>, post: seq<S -> (S, V)>, s: S)
    ensures var outer := pre + [Combined(inner)] + post;
      var flat := pre + inner.steps + post;
      var r1 := Thread(pre, s);
      var r2 := Thread(inner.steps, r1.0);
      var r3 := Thread(post, r2.0);
      Thread(outer, s).0 == r3.0 && Thread(flat, s).0 == r3.0 &&
      Thread(outer, s).1 == r1.1 + [inner.finish(r2.1)] + r3.1 &&
      Thread(flat, s).1 == r1.1 + r2.1 + r3.1
  {
    var s1 := Thread(pre, s).0;
    var none: seq<S -> (S, V)> := [];
    ThreadAppend(pre, [Combined(inner)], s);
    ThreadSnoc(none, Combined(inner), s1);
    assert none + [Combined(inner)] == [Combined(inner)];
    assert Thread(none, s1).0 == s1 && Thread(none, s1).1 == [];
    assert Thread([Combined(inner)], s1).1 == [Combined(inner)(s1).1];
    ThreadAppend(pre + [Combined(inner)], post, s);
    ThreadAppend(pre, inner.steps, s);
    ThreadAppend(pre + inner.steps, post, s);
  }
}
