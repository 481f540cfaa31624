/** The K-best sampler: keep the `kbest` smallest measurements, sorted, and stop when they
    agree to within `epsilon`.  Measurements are reals. */
module Sampler {

  ghost predicate Sorted(s: seq<real>) {
    forall i, j :: 0 <= i < j < |s| ==> s[i] <= s[j]
  }

  /** `best` consists of the `k` smallest of `all` (of all of them, if there are fewer). */
  ghost predicate KSmallest(best: seq<real>, all: seq<real>, k: nat) {
    && Sorted(best)
    && |best| == (if |all| < k then |all| else k)
    && multiset(best) <= multiset(all)
    && forall x, y :: x in best && y in multiset(all) - multiset(best) ==> x <= y
  }

  /** Where `val` ends up in a sorted sequence: behind everything not greater. */
  function Place(s: seq<real>, val: real): (p: nat)
    ensures p <= |s|
  {
    if s == [] || s[|s| - 1] <= val then |s| else Place(s[..|s| - 1], val)
  }

  function Insert(s: seq<real>, val: real): seq<real> {
    s[..Place(s, val)] + [val] + s[Place(s, val)..]
  }

  lemma {:induction false} PlaceSplits(s: seq<real>, val: real)
    requires Sorted(s)
    ensures forall i :: 0 <= i < Place(s, val) ==> s[i] <= val
    ensures forall i :: Place(s, val) <= i < |s| ==> val < s[i]
  {
    if s != [] && s[|s| - 1] > val {
      PlaceSplits(s[..|s| - 1], val);
    }
  }

  lemma InsertSorted(s: seq<real>, val: real)
    requires Sorted(s)
    ensures Sorted(Insert(s, val))
    ensures multiset(Insert(s, val)) == multiset(s) + multiset{val}
  {
    PlaceSplits(s, val);
    assert s == s[..Place(s, val)] + s[Place(s, val)..];
  }

  /** Adding a sample while there are fewer than `k`. */
  lemma AddEarly(best: seq<real>, all: seq<real>, k: nat, val: real)
    requires KSmallest(best, all, k) && |all| < k
    ensures KSmallest(Insert(best, val), all + [val], k)
  {
    hide Insert, Sorted;
    InsertSorted(best, val);
    InsertLength(best, val);
    SameSize(multiset(best), multiset(all));
    assert multiset(all + [val]) - multiset(Insert(best, val)) == multiset{};
  }

  lemma InsertLength(s: seq<real>, val: real)
    ensures |Insert(s, val)| == |s| + 1
  {
  }

  /** Adding a sample below the largest of the k smallest, which it displaces. */
  lemma AddSmaller(best: seq<real>, all: seq<real>, k: nat, val: real)
    requires KSmallest(best, all, k) && 0 < k <= |all| && val < best[k - 1]
    ensures KSmallest(Insert(best[..k - 1], val), all + [val], k)
  {
    hide Insert;
    var kept, dropped := best[..k - 1], best[k - 1];
    var now := Insert(kept, val);
    InsertSorted(kept, val);
    InsertLength(kept, val);
    assert best == kept + [dropped];
    var rest := multiset(all) - multiset(best);
    assert multiset(all + [val]) - multiset(now) == rest + multiset{dropped};
    forall x, y | x in now && y in rest + multiset{dropped}
      ensures x <= y
    {
      assert x in multiset(now);
      assert dropped in best;
      if x != val {
        assert x in kept;
      }
    }
  }

  lemma AddLarger(best: seq<real>, all: seq<real>, k: nat, val: real)
    requires KSmallest(best, all, k) && k > 0 && |all| >= k && val >= best[k - 1]
    ensures KSmallest(best, all + [val], k)
  {
    assert multiset(all + [val]) - multiset(best) == multiset(all) - multiset(best) + multiset{val};
  }

  lemma SameSize(a: multiset<real>, b: multiset<real>)
    requires a <= b && |a| == |b|
    ensures a == b
  {
    assert b == a + (b - a);
    assert |b - a| == 0;
  }

  /** The `k` smallest, one sample at a time. */
  function Push(best: seq<real>, k: nat, val: real): seq<real>
    requires k > 0 && |best| <= k
  {
    if |best| < k then Insert(best, val)
    else if val < best[k - 1] then Insert(best[..k - 1], val)
    else best
  }

  function BestOf(all: seq<real>, k: nat): (best: seq<real>)
    requires k > 0
    ensures |best| == if |all| < k then |all| else k
  {
    if all == [] then [] else Push(BestOf(all[..|all| - 1], k), k, all[|all| - 1])
  }

  lemma NoneSmallest(k: nat)
    ensures KSmallest([], [], k)
  {
  }

  /** They are the k smallest, in order. */
  lemma {:induction false} BestIsSmallest(all: seq<real>, k: nat)
    requires k > 0
    ensures KSmallest(BestOf(all, k), all, k)
    decreases |all|
  {
    hide KSmallest, Insert, Sorted;
    if all == [] {
      NoneSmallest(k);
    } else {
      var before, val := all[..|all| - 1], all[|all| - 1];
      BestIsSmallest(before, k);
      assert all == before + [val];
      if |before| < k {
        AddEarly(BestOf(before, k), before, k, val);
      } else if val < BestOf(before, k)[k - 1] {
        AddSmaller(BestOf(before, k), before, k, val);
      } else {
        AddLarger(BestOf(before, k), before, k, val);
      }
    }
  }

  lemma NextBest(all: seq<real>, val: real, k: nat)
    requires k > 0
    ensures BestOf(all + [val], k) == Push(BestOf(all, k), k, val)
  {
    assert (all + [val])[..|all|] == all;
  }

  lemma Parts(all: seq<real>, k: nat)
    requires k > 0
    ensures Sorted([]) && forall i :: 0 <= i <= |BestOf(all, k)| ==> Sorted(BestOf(all, k)[..i])
  {
    hide BestOf;
    BestIsSmallest(all, k);
  }

  lemma InsertFirst(val: real)
    ensures Insert([], val) == [val]
  {
  }

  class KBest {
    const kbest: nat
    const maxSamples: int
    const epsilon: real
    const values: array<real>
    var sampleCount: nat
    /** Everything measured so far. */
    ghost var samples: seq<real>

    ghost predicate Valid()
      reads this, values
    {
      && kbest > 0 && values.Length == kbest
      && sampleCount == |samples|
      && values[..Kept()] == BestOf(samples, kbest)
    }

    function Kept(): nat
      reads this
    {
      if sampleCount < kbest then sampleCount else kbest
    }

    constructor InitSampler(kbest: nat, maxSamples: int, epsilon: real)
      requires kbest > 0
      ensures Valid() && samples == [] && fresh(values)
      ensures this.kbest == kbest && this.maxSamples == maxSamples && this.epsilon == epsilon
    {
      this.kbest, this.maxSamples, this.epsilon := kbest, maxSamples, epsilon;
      values := new real[kbest](_ => 0.0);
      sampleCount, samples := 0, [];
    }

    /** The insertion step: the value at `start` sinks to its place among the sorted values
        before it. */
    method Sink(start: nat)
      requires start < values.Length && Sorted(values[..start])
      modifies values
      ensures values[..start + 1] == Insert(old(values[..start]), old(values[start]))
      ensures values[start + 1..] == old(values[start + 1..])
    {
      ghost var kept, val := values[..start], values[start];
      var pos := start;
      while pos > 0 && values[pos - 1] > values[pos]
        invariant 0 <= pos <= start
        invariant values[..pos] == kept[..pos] && values[pos] == val
        invariant values[pos + 1..start + 1] == kept[pos..]
        invariant forall i :: pos <= i < start ==> val < kept[i]
        invariant values[start + 1..] == old(values[start + 1..])
      {
        assert values[..pos][pos - 1] == kept[pos - 1];
        var temp := values[pos - 1];
        values[pos - 1] := values[pos];
        values[pos] := temp;
        pos := pos - 1;
        assert values[pos + 1..start + 1] == [temp] + kept[pos + 1..];
      }
      assert pos > 0 ==> values[..pos][pos - 1] == kept[pos - 1];
      PlaceIs(kept, val, pos);
      assert values[..start + 1] == values[..pos] + [values[pos]] + values[pos + 1..start + 1];
    }

    /** The new value goes behind the old ones, or over the largest if the array is full and it
        is smaller; otherwise nothing is stored. */
    method StoreSample(val: real) returns (pos: nat, ghost stored: bool)
      requires Valid()
      modifies values
      ensures pos < values.Length && Sorted(values[..pos])
      ensures stored ==>
                && pos + 1 == (if sampleCount < kbest then sampleCount + 1 else kbest)
                && Insert(values[..pos], values[pos]) == BestOf(samples + [val], kbest)
      ensures !stored ==> pos == 0 && sampleCount >= kbest && values[..] == BestOf(samples + [val], kbest)
    {
      hide Insert, Sorted, BestOf;
      ghost var best := values[..Kept()];
      Parts(samples, kbest);
      NextBest(samples, val, kbest);
      if sampleCount < kbest {
        pos := sampleCount;
        values[pos] := val;
        assert values[..pos] == best == best[..|best|];
        return pos, true;
      } else if val < values[kbest - 1] {
        pos := kbest - 1;
        values[pos] := val;
        assert values[..pos] == best[..kbest - 1];
        return pos, true;
      }
      assert values[..] == best && values[..0] == best[..0];
      return 0, false;
    }

    method AddSample(val: real)
      requires Valid()
      modifies this, values
      ensures Valid() && samples == old(samples) + [val]
    {
      hide Insert, Sorted, BestOf;
      ghost var stored;
      var pos;
      pos, stored := StoreSample(val);
      ghost var before := values[..];
      sampleCount := sampleCount + 1;
      samples := samples + [val];
      Sink(pos);
      if stored {
        assert values[..Kept()] == values[..pos + 1];
      } else {
        assert before[..0] == [];
        InsertFirst(before[0]);
        assert values[..] == values[..1] + values[1..] == before;
        assert values[..Kept()] == before;
      }
    }

    /** Have the `kbest` smallest converged? */
    predicate HasConverged()
      reads this, values
      requires Valid()
      ensures HasConverged() <==> Converged(samples, kbest, epsilon)
    {
      assert sampleCount >= kbest ==>
          values[..Kept()][0] == values[0] && values[..Kept()][kbest - 1] == values[kbest - 1];
      sampleCount >= kbest && (1.0 + epsilon) * values[0] >= values[kbest - 1]
    }
  }

  /** There are `k` samples, and the largest of the k smallest is within `epsilon` of the least. */
  ghost predicate Converged(all: seq<real>, k: nat, epsilon: real)
    requires k > 0
  {
    |all| >= k && (1.0 + epsilon) * BestOf(all, k)[0] >= BestOf(all, k)[k - 1]
  }

  lemma {:induction false} PlaceIs(s: seq<real>, val: real, p: int)
    requires Sorted(s) && 0 <= p <= |s|
    requires p > 0 ==> s[p - 1] <= val
    requires forall i :: p <= i < |s| ==> val < s[i]
    ensures Place(s, val) == p
  {
    if s != [] && s[|s| - 1] > val {
      PlaceIs(s[..|s| - 1], val, p);
    }
  }

  /** `x` is the least of the measurements. */
  ghost predicate Least(x: real, all: seq<real>) {
    x in all && forall y :: y in all ==> x <= y
  }

  lemma FirstIsLeast(all: seq<real>, k: nat)
    requires k > 0 && all != []
    ensures Least(BestOf(all, k)[0], all)
  {
    BestIsSmallest(all, k);
    var best := BestOf(all, k);
    assert best[0] in best && best[0] in multiset(all);
    forall y | y in all
      ensures best[0] <= y
    {
      assert y in multiset(all);
      if y in best {
        var i :| 0 <= i < |best| && best[i] == y;
        assert i == 0 || best[0] <= best[i];
      } else {
        assert y in multiset(all) - multiset(best);
      }
    }
  }

  /** `k` of the measurements are at most `bound`. */
  ghost predicate KWithin(all: seq<real>, k: nat, bound: real) {
    exists s :: s <= multiset(all) && |s| == k && AllBelow(s, bound)
  }

  ghost predicate AllBelow(s: multiset<real>, bound: real) {
    forall y :: y in s ==> y <= bound
  }

  /** The measurements have converged exactly if some `k` of them are within `epsilon` of the least
      of all. */
  lemma ConvergedExactly(all: seq<real>, k: nat, epsilon: real)
    requires k > 0
    ensures Converged(all, k, epsilon)
            <==> exists x :: Least(x, all) && KWithin(all, k, (1.0 + epsilon) * x)
  {
    hide BestOf, KSmallest;
    var best := BestOf(all, k);
    BestIsSmallest(all, k);
    if all != [] {
      FirstIsLeast(all, k);
      OneLeast(all);
      if |all| >= k {
        KthSmallest(best, all, k, (1.0 + epsilon) * best[0]);
      }
    }
    forall s | s <= multiset(all)
      ensures |s| <= |all|
    {
      assert multiset(all) == s + (multiset(all) - s);
    }
  }

  lemma OneLeast(all: seq<real>)
    ensures forall x, y :: Least(x, all) && Least(y, all) ==> x == y
  {
  }

  /** `k` measurements are below a bound exactly if the k-th smallest is. */
  lemma KthSmallest(best: seq<real>, all: seq<real>, k: nat, bound: real)
    requires KSmallest(best, all, k) && 0 < k <= |all|
    ensures KWithin(all, k, bound) <==> best[k - 1] <= bound
  {
    var last := best[k - 1];
    if last <= bound {
      forall y | y in multiset(best)
        ensures y <= bound
      {
        var i :| 0 <= i < |best| && best[i] == y;
        assert i == k - 1 || best[i] <= best[k - 1];
      }
      assert AllBelow(multiset(best), bound);
    } else if KWithin(all, k, bound) {
      var s :| s <= multiset(all) && |s| == k && AllBelow(s, bound);
      BelowLast(best, all, k, s);
      assert false;
    }
  }

  lemma NotInRest(best: seq<real>, all: seq<real>, k: nat, y: real)
    requires KSmallest(best, all, k) && 0 < k <= |all| && y < best[k - 1]
    ensures multiset(all)[y] == multiset(best)[y]
  {
    hide Sorted;
    assert best[k - 1] in best;
    assert y !in multiset(all) - multiset(best);
  }

  lemma SmallerBag(s: multiset<real>, t: multiset<real>)
    requires s <= t
    ensures |s| <= |t|
  {
    assert t == s + (t - s);
  }

  lemma BelowLast(best: seq<real>, all: seq<real>, k: nat, s: multiset<real>)
    requires KSmallest(best, all, k) && 0 < k <= |all| && s <= multiset(all)
    requires forall y :: y in s ==> y < best[k - 1]
    ensures |s| < k
  {
    hide Sorted;
    var kept, last := best[..k - 1], best[k - 1];
    assert best == kept + [last] && last in best;
    forall y | y in s
      ensures s[y] <= multiset(kept)[y]
    {
      NotInRest(best, all, k, y);
      assert multiset(best)[y] == multiset(kept)[y];
    }
    assert s <= multiset(kept);
    SmallerBag(s, multiset(kept));
  }

  /** The first `n` measurements. */
  function Taken(measure: nat -> real, n: nat): (s: seq<real>)
    ensures |s| == n && forall i :: 0 <= i < n ==> s[i] == measure(i)
  {
    seq(n, i requires 0 <= i => measure(i))
  }

  lemma OneMore(measure: nat -> real, n: nat)
    ensures Taken(measure, n + 1) == Taken(measure, n) + [measure(n)]
  {
  }

  /** `fcyc` on a stream of measurements: it takes at least one, stops the first time they have
      converged or when max(1, maxSamples) have been taken, and returns the least. */
  method Fcyc(kbest: nat, maxSamples: int, epsilon: real, measure: nat -> real)
    returns (result: real, taken: nat)
    requires kbest > 0
    ensures var most := if maxSamples > 1 then maxSamples else 1;
            && 1 <= taken <= most
            && (taken == most || Converged(Taken(measure, taken), kbest, epsilon))
    ensures forall i :: 1 <= i < taken ==> !Converged(Taken(measure, i), kbest, epsilon)
    ensures Least(result, Taken(measure, taken))
  {
    hide Sorted, BestOf, Converged;
    var sampler := new KBest.InitSampler(kbest, maxSamples, epsilon);
    ghost var most := if maxSamples > 1 then maxSamples else 1;
    taken := 0;
    var done := false;
    while !done
      invariant sampler.Valid() && fresh(sampler) && fresh(sampler.values)
      invariant sampler.kbest == kbest && sampler.maxSamples == maxSamples && sampler.epsilon == epsilon
      invariant sampler.samples == Taken(measure, taken)
      invariant taken <= most && (done ==> taken >= 1) && (!done ==> taken < most)
      invariant forall i :: 1 <= i < taken ==> !Converged(Taken(measure, i), kbest, epsilon)
      invariant !done && taken > 0 ==> !Converged(Taken(measure, taken), kbest, epsilon)
      invariant done ==> taken == most || Converged(Taken(measure, taken), kbest, epsilon)
      decreases !done, most - taken
    {
      var cyc := measure(taken);
      sampler.AddSample(cyc);
      OneMore(measure, taken);
      taken := taken + 1;
      done := sampler.HasConverged() || sampler.sampleCount >= maxSamples;
    }
    result := sampler.values[0];
    assert sampler.values[..sampler.Kept()][0] == result;
    FirstIsLeast(sampler.samples, kbest);
  }
}
