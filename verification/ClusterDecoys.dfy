/**
 Cluster-aware decoy selection: weighted sampling without replacement over three pools of
 decreasing strictness (`select_decoys_cluster_aware`, `select_from_pool`,
 `select_with_cluster_scoring`).

 The uniform draws are an arbitrary function of the draw number into [0, 1); age weights and
 similarities are arbitrary positive reals (`weight_for_age` floors at 1e-10, and
 `TagSimilarity.CombinedBounds` bounds the similarity away from zero).
 */
module ClusterDecoys {
  import opened Machine
  import opened Arithmetic
  import opened Sequences
  import opened Candidates

  const MIN_CLUSTER_SIMILARITY: real := 0.7

  // ----- weighted draws -----

  function SumTo(w: seq<real>, k: nat): real
    requires k <= |w|
  {
    if k == 0 then 0.0 else SumTo(w, k - 1) + w[k - 1]
  }

  function Sum(w: seq<real>): real {
    SumTo(w, |w|)
  }

  predicate Positive(w: seq<real>) {
    forall i :: 0 <= i < |w| ==> w[i] > 0.0
  }

  lemma {:induction false} SumToPositive(w: seq<real>, k: nat)
    requires Positive(w) && k <= |w|
    ensures SumTo(w, k) >= 0.0 && (SumTo(w, k) > 0.0 <==> k > 0)
  {
    if k > 0 {
      SumToPositive(w, k - 1);
    }
  }

  /** `idx` is the first position whose cumulative weight reaches `sample`. */
  ghost predicate FirstReaching(w: seq<real>, sample: real, idx: nat) {
    && idx < |w|
    && SumTo(w, idx + 1) >= sample
    && forall k :: 0 < k <= idx ==> SumTo(w, k) < sample
  }

  /** `rng.gen::<f64>() * current_total`. */
  function Sample(u: real, total: real): real {
    u * total
  }

  method PickIndex(w: seq<real>, sample: real) returns (selectedIdx: nat)
    ensures if exists k :: 0 < k <= |w| && SumTo(w, k) >= sample
            then FirstReaching(w, sample, selectedIdx) else selectedIdx == 0
  {
    var cumulative := 0.0;
    selectedIdx := 0;
    for i := 0 to |w|
      invariant selectedIdx == 0 && cumulative == SumTo(w, i)
      invariant forall k :: 0 < k <= i ==> SumTo(w, k) < sample
    {
      cumulative := cumulative + w[i];
      if cumulative >= sample {
        assert SumTo(w, i + 1) >= sample;
        selectedIdx := i;
        break;
      }
    }
  }

  /** The pool positions below `n` not yet drawn, in order: what `remaining_indices` holds. */
  function Remaining(n: nat, drawn: set<nat>): seq<nat> {
    if n == 0 then [] else Remaining(n - 1, drawn) + if n - 1 in drawn then [] else [n - 1]
  }

  /** The weights of those positions: what `remaining_weights` must hold to stay aligned. */
  function WeightsAt(w: seq<real>, positions: seq<nat>): (r: seq<real>)
    ensures |r| == |positions|
  {
    seq(|positions|, i requires 0 <= i < |positions| => if positions[i] < |w| then w[positions[i]] else 0.0)
  }

  function Without<T>(s: seq<T>, idx: nat): seq<T>
    requires idx < |s|
  {
    s[..idx] + s[idx + 1..]
  }

  lemma {:induction false} RemainingMembers(n: nat, drawn: set<nat>, x: nat)
    ensures x in Remaining(n, drawn) <==> x < n && x !in drawn
  {
    if n > 0 {
      RemainingMembers(n - 1, drawn, x);
    }
  }

  lemma {:induction false} RemainingUnchanged(n: nat, drawn: set<nat>, x: nat)
    requires x >= n
    ensures Remaining(n, drawn + {x}) == Remaining(n, drawn)
  {
    if n > 0 {
      RemainingUnchanged(n - 1, drawn, x);
    }
  }

  lemma {:induction false} RemainingWithout(n: nat, drawn: set<nat>, idx: nat)
    requires idx < |Remaining(n, drawn)|
    ensures Remaining(n, drawn + {Remaining(n, drawn)[idx]}) == Without(Remaining(n, drawn), idx)
  {
    var front := Remaining(n - 1, drawn);
    var tail := if n - 1 in drawn then [] else [n - 1];
    WithoutConcat(front, tail, idx);
    if idx < |front| {
      RemainingMembers(n - 1, drawn, front[idx]);
      RemainingWithout(n - 1, drawn, idx);
    } else {
      RemainingUnchanged(n - 1, drawn, n - 1);
    }
  }

  lemma WithoutConcat<T>(a: seq<T>, b: seq<T>, idx: nat)
    requires idx < |a| + |b|
    ensures idx < |a| ==> Without(a + b, idx) == Without(a, idx) + b
    ensures idx >= |a| ==> Without(a + b, idx) == a + Without(b, idx - |a|)
  {
  }

  lemma RemainingPositive(w: seq<real>, drawn: set<nat>)
    requires Positive(w)
    ensures Positive(WeightsAt(w, Remaining(|w|, drawn)))
  {
    var r := Remaining(|w|, drawn);
    forall i | 0 <= i < |r| ensures WeightsAt(w, r)[i] > 0.0 {
      RemainingMembers(|w|, drawn, r[i]);
    }
  }

  lemma WeightsWithout(w: seq<real>, r: seq<nat>, idx: nat)
    requires idx < |r|
    ensures WeightsAt(w, Without(r, idx)) == Without(WeightsAt(w, r), idx)
  {
  }

  function SetOf(s: seq<nat>): set<nat> {
    set x | x in s
  }

  /** Position `x` is the one a uniform `u` selects by cumulative weight among those not drawn before. */
  ghost predicate DrawnAt(w: seq<real>, before: set<nat>, u: real, x: nat) {
    var r := Remaining(|w|, before);
    var rest := WeightsAt(w, r);
    exists idx: nat :: idx < |r| && r[idx] == x && FirstReaching(rest, Sample(u, Sum(rest)), idx)
  }

  ghost predicate FollowsDraws(w: seq<real>, draws: nat -> real, drawn: seq<nat>) {
    forall j :: 0 <= j < |drawn| ==> DrawnAt(w, SetOf(drawn[..j]), draws(j), drawn[j])
  }

  lemma FollowsAppend(w: seq<real>, draws: nat -> real, drawn: seq<nat>, x: nat)
    requires FollowsDraws(w, draws, drawn) && DrawnAt(w, SetOf(drawn), draws(|drawn|), x)
    ensures FollowsDraws(w, draws, drawn + [x])
  {
    var more := drawn + [x];
    assert more[..|drawn|] == drawn;
    assert forall j :: 0 <= j < |drawn| ==> more[..j] == drawn[..j];
  }

  /** The candidates a draw sequence keeps: each first draw of a key that is not excluded. */
  function Kept(pool: seq<Candidate>, drawn: seq<nat>, exclude: seq<Key>): seq<Candidate> {
    if drawn == [] then []
    else
      var prev := Kept(pool, drawn[..|drawn| - 1], exclude);
      var x := drawn[|drawn| - 1];
      if x < |pool| && KeyOf(pool[x]) !in exclude && KeyOf(pool[x]) !in Image(prev, KeyOf)
      then prev + [pool[x]] else prev
  }

  lemma KeptAppend(pool: seq<Candidate>, drawn: seq<nat>, exclude: seq<Key>, x: nat)
    requires x < |pool|
    ensures Kept(pool, drawn + [x], exclude)
            == (if KeyOf(pool[x]) !in exclude && KeyOf(pool[x]) !in Image(Kept(pool, drawn, exclude), KeyOf)
                then Kept(pool, drawn, exclude) + [pool[x]] else Kept(pool, drawn, exclude))
  {
    assert (drawn + [x])[..|drawn|] == drawn;
  }

  function DrawnKeys(pool: seq<Candidate>, drawn: seq<nat>): set<Key> {
    if drawn == [] then {}
    else
      var x := drawn[|drawn| - 1];
      DrawnKeys(pool, drawn[..|drawn| - 1]) + if x < |pool| then {KeyOf(pool[x])} else {}
  }

  /** Exactly the drawn keys that are not excluded are kept, each once. */
  lemma {:induction false} KeptKeys(pool: seq<Candidate>, drawn: seq<nat>, exclude: seq<Key>)
    ensures DistinctBy(Kept(pool, drawn, exclude), KeyOf)
    ensures Image(Kept(pool, drawn, exclude), KeyOf) == DrawnKeys(pool, drawn) - (set k | k in exclude)
  {
    if drawn != [] {
      var n := |drawn| - 1;
      KeptKeys(pool, drawn[..n], exclude);
      if drawn[n] < |pool| {
        KeptStep(Kept(pool, drawn[..n], exclude), pool[drawn[n]]);
      }
    }
  }

  lemma {:induction false} KeptMembers(pool: seq<Candidate>, drawn: seq<nat>, exclude: seq<Key>, c: Candidate)
    requires c in Kept(pool, drawn, exclude)
    ensures c in pool && KeyOf(c) !in exclude
  {
    var n := |drawn| - 1;
    if c in Kept(pool, drawn[..n], exclude) {
      KeptMembers(pool, drawn[..n], exclude, c);
    }
  }

  lemma {:induction false} DrawnKeysMembers(pool: seq<Candidate>, drawn: seq<nat>, x: nat)
    requires x < |pool| && x in drawn
    ensures KeyOf(pool[x]) in DrawnKeys(pool, drawn)
  {
    var n := |drawn| - 1;
    if drawn[n] != x {
      assert x in drawn[..n];
      DrawnKeysMembers(pool, drawn[..n], x);
    }
  }

  lemma {:induction false} DrawnKeysBelow(pool: seq<Candidate>, drawn: seq<nat>)
    ensures DrawnKeys(pool, drawn) <= Image(pool, KeyOf)
  {
    if drawn != [] {
      DrawnKeysBelow(pool, drawn[..|drawn| - 1]);
    }
  }

  /** Once every position is drawn, every key of the pool has been. */
  lemma AllDrawn(pool: seq<Candidate>, drawn: seq<nat>)
    requires Remaining(|pool|, SetOf(drawn)) == []
    ensures DrawnKeys(pool, drawn) == Image(pool, KeyOf)
  {
    DrawnKeysBelow(pool, drawn);
    forall x | 0 <= x < |pool| ensures KeyOf(pool[x]) in DrawnKeys(pool, drawn) {
      RemainingMembers(|pool|, SetOf(drawn), x);
      DrawnKeysMembers(pool, drawn, x);
    }
  }

  /** The keys a pool can contribute. */
  function FreshKeys(pool: seq<Candidate>, exclude: seq<Key>): set<Key> {
    Image(pool, KeyOf) - set k | k in exclude
  }

  lemma KeptSize(pool: seq<Candidate>, drawn: seq<nat>, exclude: seq<Key>)
    ensures |Kept(pool, drawn, exclude)| <= |FreshKeys(pool, exclude)|
    ensures Remaining(|pool|, SetOf(drawn)) == [] ==> |Kept(pool, drawn, exclude)| == |FreshKeys(pool, exclude)|
  {
    var kept := Kept(pool, drawn, exclude);
    KeptKeys(pool, drawn, exclude);
    ImageSize(kept, KeyOf);
    DrawnKeysBelow(pool, drawn);
    SubsetSize(Image(kept, KeyOf), FreshKeys(pool, exclude));
    if Remaining(|pool|, SetOf(drawn)) == [] {
      AllDrawn(pool, drawn);
    }
  }

  lemma KeptStep(prev: seq<Candidate>, c: Candidate)
    requires DistinctBy(prev, KeyOf)
    ensures KeyOf(c) !in Image(prev, KeyOf) ==> DistinctBy(prev + [c], KeyOf)
    ensures Image(prev + [c], KeyOf) == Image(prev, KeyOf) + {KeyOf(c)}
  {
    var more := prev + [c];
    forall i | 0 <= i < |prev| ensures KeyOf(prev[i]) in Image(prev, KeyOf) && KeyOf(prev[i]) in Image(more, KeyOf) {
      assert more[i] == prev[i];
    }
    assert more[|prev|] == c;
  }

  // ----- the sampling loop shared by both selectors -----

  ghost predicate UnitDraws(draws: nat -> real) {
    forall j :: 0.0 <= draws(j) < 1.0
  }

  /** One draw.  The total of positive weights is positive, so the source's zero-total exit is never
      taken, and a uniform below 1 always lands on a position. */
  method DrawOne(rest: seq<real>, u: real) returns (idx: nat)
    requires Positive(rest) && rest != [] && 0.0 <= u < 1.0
    ensures FirstReaching(rest, Sample(u, Sum(rest)), idx)
  {
    var currentTotal := Sum(rest);
    SumToPositive(rest, |rest|);
    ScaledBelow(u, currentTotal);
    var sample := Sample(u, currentTotal);
    assert SumTo(rest, |rest|) >= sample;
    idx := PickIndex(rest, sample);
  }

  lemma ScaledBelow(u: real, total: real)
    requires 0.0 <= u < 1.0 && total > 0.0
    ensures Sample(u, total) <= total
  {
  }

  /** What one draw does to the drawn positions and the two parallel lists. */
  lemma DrawStep(pool: seq<Candidate>, w: seq<real>, exclude: seq<Key>, draws: nat -> real, drawn: seq<nat>, idx: nat)
    requires |w| == |pool| && FollowsDraws(w, draws, drawn)
    requires idx < |Remaining(|w|, SetOf(drawn))|
    requires var rest := WeightsAt(w, Remaining(|w|, SetOf(drawn)));
             FirstReaching(rest, Sample(draws(|drawn|), Sum(rest)), idx)
    ensures var r := Remaining(|w|, SetOf(drawn));
            var x := r[idx];
            && x < |pool| && x !in drawn
            && FollowsDraws(w, draws, drawn + [x])
            && Remaining(|w|, SetOf(drawn + [x])) == Without(r, idx)
            && WeightsAt(w, Without(r, idx)) == Without(WeightsAt(w, r), idx)
            && Kept(pool, drawn + [x], exclude)
               == (if KeyOf(pool[x]) !in exclude && KeyOf(pool[x]) !in Image(Kept(pool, drawn, exclude), KeyOf)
                   then Kept(pool, drawn, exclude) + [pool[x]] else Kept(pool, drawn, exclude))
  {
    var r := Remaining(|w|, SetOf(drawn));
    var x := r[idx];
    RemainingMembers(|w|, SetOf(drawn), x);
    FollowsAppend(w, draws, drawn, x);
    assert SetOf(drawn + [x]) == SetOf(drawn) + {x};
    RemainingWithout(|w|, SetOf(drawn), idx);
    WeightsWithout(w, r, idx);
    KeptAppend(pool, drawn, exclude, x);
  }

  method WeightedDraws(pool: seq<Candidate>, w: seq<real>, count: nat, exclude: seq<Key>, draws: nat -> real)
    returns (selected: seq<Candidate>, ghost drawn: seq<nat>)
    requires |w| == |pool| && Positive(w) && UnitDraws(draws)
    ensures selected == Kept(pool, drawn, exclude)
    ensures FollowsDraws(w, draws, drawn)
    ensures NoRepeats(drawn)
    ensures |selected| == Min(count, |FreshKeys(pool, exclude)|)
  {
    selected, drawn := [], [];
    var remainingIndices := Remaining(|pool|, {});
    var remainingWeights := w;
    var step := 0;
    AllRemain(w, |w|);
    assert SetOf(drawn) == {};
    while |selected| < count && remainingIndices != []
      invariant |selected| <= count && step == |drawn|
      invariant selected == Kept(pool, drawn, exclude)
      invariant FollowsDraws(w, draws, drawn)
      invariant NoRepeats(drawn)
      invariant remainingIndices == Remaining(|pool|, SetOf(drawn))
      invariant remainingWeights == WeightsAt(w, remainingIndices)
      decreases |remainingIndices|
    {
      RemainingPositive(w, SetOf(drawn));
      var idx := DrawOne(remainingWeights, draws(step));
      var x := remainingIndices[idx];
      DrawStep(pool, w, exclude, draws, drawn, idx);
      if KeyOf(pool[x]) !in exclude && KeyOf(pool[x]) !in Image(selected, KeyOf) {
        selected := selected + [pool[x]];
      }
      drawn, step := drawn + [x], step + 1;
      remainingIndices := Without(remainingIndices, idx);
      remainingWeights := Without(remainingWeights, idx);
    }
    KeptSize(pool, drawn, exclude);
  }

  lemma {:induction false} AllRemain(w: seq<real>, n: nat)
    requires n <= |w|
    ensures Remaining(n, {}) == seq(n, i => i)
    ensures n == |w| ==> WeightsAt(w, Remaining(n, {})) == w
  {
    if n > 0 {
      AllRemain(w, n - 1);
    }
  }

  // ----- the selectors -----

  /** `chosen` is what some sequence of distinct positions, drawn by cumulative weight, keeps. */
  ghost predicate SampledFrom(pool: seq<Candidate>, w: seq<real>, exclude: seq<Key>, draws: nat -> real,
                              chosen: seq<Candidate>) {
    exists drawn: seq<nat> :: NoRepeats(drawn) && FollowsDraws(w, draws, drawn) && chosen == Kept(pool, drawn, exclude)
  }

  lemma SampledProperties(pool: seq<Candidate>, w: seq<real>, exclude: seq<Key>, draws: nat -> real,
                          chosen: seq<Candidate>)
    requires SampledFrom(pool, w, exclude, draws, chosen)
    ensures DistinctBy(chosen, KeyOf)
    ensures forall c :: c in chosen ==> c in pool && KeyOf(c) !in exclude
  {
    var drawn: seq<nat> :| NoRepeats(drawn) && FollowsDraws(w, draws, drawn) && chosen == Kept(pool, drawn, exclude);
    KeptKeys(pool, drawn, exclude);
    forall c | c in chosen ensures c in pool && KeyOf(c) !in exclude {
      KeptMembers(pool, drawn, exclude, c);
    }
  }

  function AgeWeights(pool: seq<Candidate>, ageWeight: U64 -> real): seq<real> {
    seq(|pool|, i requires 0 <= i < |pool| => ageWeight(pool[i].age))
  }

  /** Combined score: age weight times squared cluster similarity. */
  function Score(ageWeight: real, similarity: real): (r: real)
    ensures ageWeight > 0.0 && similarity > 0.0 ==> r > 0.0
  {
    Product(ageWeight, Product(similarity, similarity))
  }

  function Product(a: real, b: real): (r: real)
    ensures a > 0.0 && b > 0.0 ==> r > 0.0
  {
    a * b
  }

  function Scores(pool: seq<Candidate>, ageWeight: U64 -> real, similarity: Candidate -> real): seq<real> {
    seq(|pool|, i requires 0 <= i < |pool| => Score(ageWeight(pool[i].age), similarity(pool[i])))
  }

  ghost predicate PositiveWeights(ageWeight: U64 -> real, similarity: Candidate -> real) {
    (forall age :: ageWeight(age) > 0.0) && (forall c :: similarity(c) > 0.0)
  }

  /** `select_from_pool` after its gamma check and `select_with_cluster_scoring`: the same loop over
      different weights.  An empty pool has zero total weight and is refused even for `count == 0`. */
  method SampleDecoys(pool: seq<Candidate>, w: seq<real>, count: nat, exclude: seq<Key>, draws: nat -> real)
    returns (r: Result<seq<Candidate>, DecoyError>)
    requires |w| == |pool| && Positive(w) && UnitDraws(draws)
    ensures if pool == [] then r == Err(InvalidDistribution)
            else if |FreshKeys(pool, exclude)| < count
              then r == Err(InsufficientCandidates(count, |FreshKeys(pool, exclude)|))
            else r.Ok? && |r.value| == count && SampledFrom(pool, w, exclude, draws, r.value)
  {
    var total := Sum(w);
    SumToPositive(w, |w|);
    if total <= 0.0 {
      return Err(InvalidDistribution);
    }
    var selected, drawn := WeightedDraws(pool, w, count, exclude, draws);
    if |selected| < count {
      return Err(InsufficientCandidates(count, |selected|));
    }
    return Ok(selected);
  }

  function Banded(candidates: seq<Candidate>, exclude: seq<Key>, realFactor: U64): seq<Candidate> {
    Filter(candidates, (c: Candidate) => IsEligible(c, exclude) && InFactorBand(c.factor, realFactor))
  }

  function Compatible(candidates: seq<Candidate>, exclude: seq<Key>, realFactor: U64,
                      similarity: Candidate -> real): seq<Candidate> {
    Filter(candidates, (c: Candidate) => IsEligible(c, exclude) && InFactorBand(c.factor, realFactor)
                                         && similarity(c) >= MIN_CLUSTER_SIMILARITY)
  }

  /** The strictest pool that can supply `count` decoys, or every eligible candidate. */
  function Tier(candidates: seq<Candidate>, count: nat, exclude: seq<Key>, realFactor: U64,
                similarity: Candidate -> real): seq<Candidate> {
    if |Compatible(candidates, exclude, realFactor, similarity)| >= count
    then Compatible(candidates, exclude, realFactor, similarity)
    else if |Banded(candidates, exclude, realFactor)| >= count then Banded(candidates, exclude, realFactor)
    else Eligible(candidates, exclude)
  }

  predicate FullyCompatible(candidates: seq<Candidate>, count: nat, exclude: seq<Key>, realFactor: U64,
                            similarity: Candidate -> real) {
    |Compatible(candidates, exclude, realFactor, similarity)| >= count
  }

  method SelectDecoysClusterAware(candidates: seq<Candidate>, count: nat, realFactor: U64, exclude: seq<Key>,
                                  gammaValid: bool,
                                  ageWeight: U64 -> real, similarity: Candidate -> real, draws: nat -> real)
    returns (r: Result<seq<Candidate>, DecoyError>)
    requires PositiveWeights(ageWeight, similarity) && UnitDraws(draws)
    ensures var tier := Tier(candidates, count, exclude, realFactor, similarity);
            var strict := FullyCompatible(candidates, count, exclude, realFactor, similarity);
            if !strict && |tier| < count then r == Err(InsufficientCandidates(count, |tier|))
            else if tier == [] || (strict && !gammaValid) then r == Err(InvalidDistribution)
            else if |FreshKeys(tier, exclude)| < count
              then r == Err(InsufficientCandidates(count, |FreshKeys(tier, exclude)|))
            else
              var w := if strict then AgeWeights(tier, ageWeight) else Scores(tier, ageWeight, similarity);
              r.Ok? && |r.value| == count && SampledFrom(tier, w, exclude, draws, r.value)
    ensures r.Ok? <==> Succeeds(candidates, count, realFactor, exclude, gammaValid, similarity)
  {
    var compatible := Compatible(candidates, exclude, realFactor, similarity);
    if |compatible| >= count {
      if !gammaValid {
        return Err(InvalidDistribution);
      }
      r := SampleDecoys(compatible, AgeWeights(compatible, ageWeight), count, exclude, draws);
      return;
    }
    var banded := Banded(candidates, exclude, realFactor);
    if |banded| >= count {
      r := SampleDecoys(banded, Scores(banded, ageWeight, similarity), count, exclude, draws);
      return;
    }
    var eligible := Eligible(candidates, exclude);
    if |eligible| < count {
      return Err(InsufficientCandidates(count, |eligible|));
    }
    r := SampleDecoys(eligible, Scores(eligible, ageWeight, similarity), count, exclude, draws);
  }

  // ----- what the selection guarantees -----

  lemma {:induction false} FilterWeaker(s: seq<Candidate>, p: Candidate -> bool, q: Candidate -> bool)
    requires forall c :: p(c) ==> q(c)
    ensures |Filter(s, p)| <= |Filter(s, q)|
  {
    if s != [] {
      FilterWeaker(s[1..], p, q);
    }
  }

  /** When `SelectDecoysClusterAware` succeeds, as it promises. */
  predicate Succeeds(candidates: seq<Candidate>, count: nat, realFactor: U64, exclude: seq<Key>, gammaValid: bool,
                     similarity: Candidate -> real) {
    var tier := Tier(candidates, count, exclude, realFactor, similarity);
    var strict := FullyCompatible(candidates, count, exclude, realFactor, similarity);
    && (strict || |tier| >= count)
    && tier != [] && (strict ==> gammaValid)
    && |FreshKeys(tier, exclude)| >= count
  }

  lemma DistinctPoolIsFresh(pool: seq<Candidate>, exclude: seq<Key>)
    requires DistinctBy(pool, KeyOf) && forall c :: c in pool ==> KeyOf(c) !in exclude
    ensures |FreshKeys(pool, exclude)| == |pool|
  {
    ImageSize(pool, KeyOf);
    forall i | 0 <= i < |pool| ensures KeyOf(pool[i]) !in exclude {
      assert pool[i] in pool;
    }
    assert FreshKeys(pool, exclude) == Image(pool, KeyOf);
  }

  lemma TierIsEligible(candidates: seq<Candidate>, count: nat, exclude: seq<Key>, realFactor: U64,
                       similarity: Candidate -> real)
    requires DistinctBy(candidates, KeyOf)
    ensures |FreshKeys(Tier(candidates, count, exclude, realFactor, similarity), exclude)|
            == |Tier(candidates, count, exclude, realFactor, similarity)|
  {
    FilterDistinct(candidates, (c: Candidate) => IsEligible(c, exclude), KeyOf);
    FilterDistinct(candidates, (c: Candidate) => IsEligible(c, exclude) && InFactorBand(c.factor, realFactor), KeyOf);
    FilterDistinct(candidates, (c: Candidate) => IsEligible(c, exclude) && InFactorBand(c.factor, realFactor)
                                                 && similarity(c) >= MIN_CLUSTER_SIMILARITY, KeyOf);
    DistinctPoolIsFresh(Tier(candidates, count, exclude, realFactor, similarity), exclude);
  }

  /** With distinct keys it succeeds exactly when `count` candidates are eligible, for every draw and
      every positive weight, except that the compatible pool needs a valid gamma distribution, and that
      asking for no decoys at all fails unless some candidate is compatible. */
  lemma SucceedsIffEnoughEligible(candidates: seq<Candidate>, count: nat, realFactor: U64, exclude: seq<Key>,
                                  gammaValid: bool, similarity: Candidate -> real)
    requires DistinctBy(candidates, KeyOf)
    ensures Succeeds(candidates, count, realFactor, exclude, gammaValid, similarity) <==>
            && |Eligible(candidates, exclude)| >= count
            && (FullyCompatible(candidates, count, exclude, realFactor, similarity) ==> gammaValid)
            && (count == 0 ==> Compatible(candidates, exclude, realFactor, similarity) != [])
  {
    TierIsEligible(candidates, count, exclude, realFactor, similarity);
    FilterWeaker(candidates, (c: Candidate) => IsEligible(c, exclude) && InFactorBand(c.factor, realFactor),
                 (c: Candidate) => IsEligible(c, exclude));
    FilterWeaker(candidates, (c: Candidate) => IsEligible(c, exclude) && InFactorBand(c.factor, realFactor)
                                               && similarity(c) >= MIN_CLUSTER_SIMILARITY,
                 (c: Candidate) => IsEligible(c, exclude) && InFactorBand(c.factor, realFactor));
  }

  /** Asking an empty pool for no decoys is an error, although no candidate is lacking. */
  lemma EmptyRequestFails(realFactor: U64, gammaValid: bool, similarity: Candidate -> real)
    ensures |Eligible([], [])| == 0 && !Succeeds([], 0, realFactor, [], gammaValid, similarity)
  {
    SucceedsIffEnoughEligible([], 0, realFactor, [], gammaValid, similarity);
  }

  /** Whenever the factor band can supply `count` candidates, every decoy is in the band. */
  lemma DecoysStayInFactorBand(candidates: seq<Candidate>, count: nat, exclude: seq<Key>, realFactor: U64,
                               similarity: Candidate -> real,
                               w: seq<real>, draws: nat -> real, chosen: seq<Candidate>)
    requires SampledFrom(Tier(candidates, count, exclude, realFactor, similarity), w, exclude, draws, chosen)
    requires |Banded(candidates, exclude, realFactor)| >= count
    ensures forall c :: c in chosen ==> InFactorBand(c.factor, realFactor) && IsEligible(c, exclude)
  {
    SampledProperties(Tier(candidates, count, exclude, realFactor, similarity), w, exclude, draws, chosen);
  }

  function FactorMass(ring: seq<Candidate>): nat {
    if ring == [] then 0
    else FactorMass(ring[..|ring| - 1]) + ring[|ring| - 1].output.amount * ring[|ring| - 1].factor
  }

  /** So the value-weighted mean factor of the whole ring stays in the band: at most 1.100x for a
      background (1x) spender, whatever the values of the ring members. */
  lemma RingFloorStaysInBand(ring: seq<Candidate>, realFactor: U64)
    requires forall c :: c in ring ==> InFactorBand(c.factor, realFactor)
    requires TotalValue(ring) > 0
    ensures var (lo, hi) := FactorSimilarityBand(realFactor);
            lo <= FactorMass(ring) / TotalValue(ring) <= hi
    ensures realFactor <= FACTOR_SCALE ==> FACTOR_SCALE <= FactorMass(ring) / TotalValue(ring) <= 1_100
  {
    var (lo, hi) := FactorSimilarityBand(realFactor);
    MassBounds(ring, lo, hi);
    QuotientBetween(FactorMass(ring), TotalValue(ring), lo, hi);
    FactorBandMeaning(realFactor, realFactor);
  }

  lemma {:induction false} MassBounds(ring: seq<Candidate>, lo: nat, hi: nat)
    requires forall c :: c in ring ==> lo <= c.factor <= hi
    ensures lo * TotalValue(ring) <= FactorMass(ring) <= hi * TotalValue(ring)
  {
    if ring != [] {
      var n := |ring| - 1;
      MassBounds(ring[..n], lo, hi);
      MassStep(lo, hi, TotalValue(ring[..n]), FactorMass(ring[..n]), ring[n].output.amount, ring[n].factor);
    }
  }

  lemma MassStep(lo: nat, hi: nat, t: nat, m: nat, a: nat, f: nat)
    requires lo * t <= m <= hi * t && lo <= f <= hi
    ensures lo * (t + a) <= m + a * f <= hi * (t + a)
  {
    MulLe(lo, f, a);
    MulLe(f, hi, a);
    assert lo * (t + a) == lo * t + lo * a && hi * (t + a) == hi * t + hi * a;
  }

  lemma QuotientBetween(m: nat, t: nat, lo: nat, hi: nat)
    requires t > 0 && lo * t <= m <= hi * t
    ensures lo <= m / t <= hi
  {
    DivIs(lo * t, t, lo);
    DivIs(hi * t, t, hi);
    DivMonotone(lo * t, m, t);
    DivMonotone(m, hi * t, t);
  }
}
