/**
 Age-similar decoy selection: `GammaDecoySelector::select_decoys_for_input`.

 Phase 1 draws target ages and takes the nearest unused in-band candidate to each; phase 2 fills
 the remaining slots with the nearest-aged leftovers.  The gamma samples are an arbitrary
 function of the draw number, so every contract holds for all of them.  The source returns the `output`
 of each chosen candidate; the model keeps the whole candidate so that its age can be spoken of.
 */
module NearestDecoys {
  import opened Machine
  import opened Sequences
  import opened Candidates

  // ----- age distance, with the source's casts -----

  function AsI64(n: U64): int {
    if n < I64_RANGE then n else n - (U64_MAX + 1)
  }

  /** `(a as i64 - b as i64).unsigned_abs()`; exact for ages below 2^63, and the subtraction cannot
      overflow there. */
  function AgeDistance(a: U64, b: U64): (r: nat)
    ensures a < I64_RANGE && b < I64_RANGE ==>
              r == AbsDiff(a, b) && -(I64_RANGE as int) <= AsI64(a) - AsI64(b) < I64_RANGE
  {
    var d := AsI64(a) - AsI64(b);
    if d < 0 then -d else d
  }

  function DistanceTo(age: U64): Candidate -> int {
    (c: Candidate) => AgeDistance(c.age, age)
  }

  /** No age the selection compares reaches 2^63, where the cast to i64 would overflow and panic. */
  predicate AgesFit(candidates: seq<Candidate>, realAge: U64) {
    && AgeSimilarityBand(realAge).1 < I64_RANGE
    && forall i :: 0 <= i < |candidates| ==> candidates[i].age < I64_RANGE
  }

  // ----- what the two phases can reach -----

  function InBand(e: seq<Candidate>, realAge: U64): seq<Candidate> {
    Filter(e, (c: Candidate) => InAgeBand(c.age, realAge))
  }

  function BandKeys(e: seq<Candidate>, realAge: U64): set<Key> {
    Image(InBand(e, realAge), KeyOf)
  }

  function Unused(s: seq<Candidate>, used: set<Key>): seq<Candidate> {
    Filter(s, (c: Candidate) => KeyOf(c) !in used)
  }

  /** Candidates whose key no in-band candidate holds: all that phase 2 can draw on. */
  function Leftovers(e: seq<Candidate>, realAge: U64): seq<Candidate> {
    Unused(e, BandKeys(e, realAge))
  }

  function NearestFirst(s: seq<Candidate>, realAge: U64): seq<Candidate> {
    Sort(s, DistanceTo(realAge))
  }

  /** How many decoys both phases together can supply. */
  function Reachable(e: seq<Candidate>, realAge: U64): nat {
    |BandKeys(e, realAge)| + |Leftovers(e, realAge)|
  }

  /** `chosen` is one in-band candidate per key, then, once the keys run out, the front of `near`. */
  ghost predicate TwoPhase(band: seq<Candidate>, near: seq<Candidate>, count: nat, chosen: seq<Candidate>) {
    var d := Min(|Image(band, KeyOf)|, count);
    && |chosen| == count
    && (forall i :: 0 <= i < d ==> chosen[i] in band)
    && DistinctBy(chosen[..d], KeyOf)
    && (d < count ==>
          && Image(chosen[..d], KeyOf) == Image(band, KeyOf)
          && |near| >= count - d
          && chosen[d..] == near[..count - d])
  }

  /** What a successful selection of `count` decoys from the eligible `e` looks like. */
  ghost predicate AgeSimilarChoice(e: seq<Candidate>, realAge: U64, count: nat, chosen: seq<Candidate>) {
    TwoPhase(InBand(e, realAge), NearestFirst(Leftovers(e, realAge), realAge), count, chosen)
  }

  lemma TwoPhaseIntro(band: seq<Candidate>, near: seq<Candidate>, count: nat, phase1: seq<Candidate>,
                      chosen: seq<Candidate>)
    requires |phase1| == Min(|Image(band, KeyOf)|, count) && DistinctBy(phase1, KeyOf)
    requires forall i :: 0 <= i < |phase1| ==> phase1[i] in band
    requires |phase1| < count ==> Image(phase1, KeyOf) == Image(band, KeyOf) && |near| >= count - |phase1|
    requires chosen == phase1 + if |phase1| < count then near[..count - |phase1|] else []
    ensures TwoPhase(band, near, count, chosen)
  {
    assert chosen[..|phase1|] == phase1;
  }

  lemma ChosenAt(band: seq<Candidate>, near: seq<Candidate>, count: nat, chosen: seq<Candidate>, i: nat)
    requires TwoPhase(band, near, count, chosen) && i < count
    ensures var d := |Image(band, KeyOf)|;
            if i < d then chosen[i] in band
            else i - d < count - d <= |near| && chosen[i] == near[i - d]
  {
    var d := Min(|Image(band, KeyOf)|, count);
    if i >= d {
      assert chosen[i] == chosen[d..][i - d];
    }
  }

  lemma ChosenKey(band: seq<Candidate>, near: seq<Candidate>, count: nat, chosen: seq<Candidate>, k: Key)
    requires TwoPhase(band, near, count, chosen) && |Image(band, KeyOf)| < count
    requires k in Image(band, KeyOf)
    ensures exists c :: c in chosen && c in band && KeyOf(c) == k
  {
    var d := |Image(band, KeyOf)|;
    var i :| 0 <= i < d && KeyOf(chosen[..d][i]) == k;
    assert chosen[i] in chosen && chosen[i] in band;
  }

  /** `min_by_key`: the first candidate at least distance from `target`. */
  function Nearest(s: seq<Candidate>, target: U64): (r: Candidate)
    requires s != []
    ensures r in s
    ensures forall c :: c in s ==> AgeDistance(r.age, target) <= AgeDistance(c.age, target)
  {
    if |s| == 1 then s[0]
    else
      var t := Nearest(s[1..], target);
      if AgeDistance(s[0].age, target) <= AgeDistance(t.age, target) then s[0] else t
  }

  /** Each pick is, among the in-band candidates not yet used, nearest to its own clamped sample. */
  ghost predicate FollowsSamples(band: seq<Candidate>, realAge: U64, samples: nat -> U64, picks: seq<Candidate>) {
    var (lo, hi) := AgeSimilarityBand(realAge);
    lo <= hi ==>
      forall i, c :: 0 <= i < |picks| && c in Unused(band, Image(picks[..i], KeyOf)) ==>
        AgeDistance(picks[i].age, Clamp(samples(i), lo, hi)) <= AgeDistance(c.age, Clamp(samples(i), lo, hi))
  }

  lemma FollowAnother(band: seq<Candidate>, realAge: U64, samples: nat -> U64, picks: seq<Candidate>, best: Candidate)
    requires AgeSimilarityBand(realAge).0 <= AgeSimilarityBand(realAge).1
    requires FollowsSamples(band, realAge, samples, picks)
    requires var target := Clamp(samples(|picks|), AgeSimilarityBand(realAge).0, AgeSimilarityBand(realAge).1);
             forall c :: c in Unused(band, Image(picks, KeyOf)) ==>
               AgeDistance(best.age, target) <= AgeDistance(c.age, target)
    ensures FollowsSamples(band, realAge, samples, picks + [best])
  {
    var more := picks + [best];
    assert more[..|picks|] == picks;
    assert forall i :: 0 <= i < |picks| ==> more[..i] == picks[..i] && more[i] == picks[i];
  }

  /** Phase 1: the nearest unused in-band candidate to each sampled age, until `count` are drawn or
      the band is exhausted.  The source's `used_keys` is the excluded keys, which no eligible
      candidate holds, followed by the keys of `selected`. */
  method DrawWithinBand(band: seq<Candidate>, count: nat, realAge: U64, samples: nat -> U64)
    returns (selected: seq<Candidate>)
    requires AgeSimilarityBand(realAge).0 <= AgeSimilarityBand(realAge).1
    ensures |selected| == Min(|Image(band, KeyOf)|, count)
    ensures forall i :: 0 <= i < |selected| ==> selected[i] in band
    ensures DistinctBy(selected, KeyOf)
    ensures |selected| < count ==> Image(selected, KeyOf) == Image(band, KeyOf)
    ensures FollowsSamples(band, realAge, samples, selected)
  {
    var (minAge, maxAge) := AgeSimilarityBand(realAge);
    selected := [];
    while |selected| < count
      invariant |selected| <= count
      invariant forall i :: 0 <= i < |selected| ==> selected[i] in band
      invariant DistinctBy(selected, KeyOf)
      invariant FollowsSamples(band, realAge, samples, selected)
    {
      var target := Clamp(samples(|selected|), minAge, maxAge);
      var pool := Unused(band, Image(selected, KeyOf));
      if pool == [] {
        BandExhausted(band, selected);
        ImageSize(selected, KeyOf);
        return;
      }
      var best := Nearest(pool, target);
      AppendUnused(selected, best);
      FollowAnother(band, realAge, samples, selected, best);
      selected := selected + [best];
    }
    ImageSize(selected, KeyOf);
    ImageOfMembers(selected, band);
    SubsetSize(Image(selected, KeyOf), Image(band, KeyOf));
  }

  lemma AppendUnused(selected: seq<Candidate>, best: Candidate)
    requires DistinctBy(selected, KeyOf) && KeyOf(best) !in Image(selected, KeyOf)
    ensures DistinctBy(selected + [best], KeyOf)
  {
    forall i | 0 <= i < |selected| ensures KeyOf(selected[i]) != KeyOf(best) {
      assert KeyOf(selected[i]) in Image(selected, KeyOf);
    }
  }

  lemma ImageOfMembers(selected: seq<Candidate>, band: seq<Candidate>)
    requires forall i :: 0 <= i < |selected| ==> selected[i] in band
    ensures Image(selected, KeyOf) <= Image(band, KeyOf)
  {
    forall i | 0 <= i < |selected| ensures KeyOf(selected[i]) in Image(band, KeyOf) {
      assert selected[i] in band;
    }
  }

  /** When no unused in-band candidate is left, every in-band key has been chosen. */
  lemma BandExhausted(band: seq<Candidate>, selected: seq<Candidate>)
    requires forall i :: 0 <= i < |selected| ==> selected[i] in band
    requires Unused(band, Image(selected, KeyOf)) == []
    ensures Image(selected, KeyOf) == Image(band, KeyOf)
  {
    ImageOfMembers(selected, band);
    forall i | 0 <= i < |band| ensures KeyOf(band[i]) in Image(selected, KeyOf) {
      assert band[i] in band;
      assert band[i] !in Unused(band, Image(selected, KeyOf));
    }
  }

  lemma EmptyBand(e: seq<Candidate>, realAge: U64)
    requires AgeSimilarityBand(realAge).0 > AgeSimilarityBand(realAge).1
    ensures InBand(e, realAge) == []
  {
    FilterNone(e, (c: Candidate) => InAgeBand(c.age, realAge));
  }

  /** Phase 2: top up from the sorted leftovers. */
  method FillNearest(phase1: seq<Candidate>, sorted: seq<Candidate>, count: nat) returns (selected: seq<Candidate>)
    requires |phase1| <= count
    ensures selected == phase1 + sorted[..Min(count - |phase1|, |sorted|)]
  {
    selected := phase1;
    var i := 0;
    while i < |sorted| && |selected| < count
      invariant 0 <= i <= |sorted| && |selected| <= count
      invariant selected == phase1 + sorted[..i]
    {
      selected := selected + [sorted[i]];
      i := i + 1;
    }
  }

  /** What phase 1 hands to phase 2. */
  ghost predicate BandDrawn(band: seq<Candidate>, count: nat, phase1: seq<Candidate>) {
    && |phase1| == Min(|Image(band, KeyOf)|, count)
    && DistinctBy(phase1, KeyOf)
    && (forall i :: 0 <= i < |phase1| ==> phase1[i] in band)
    && (|phase1| < count ==> Image(phase1, KeyOf) == Image(band, KeyOf))
  }

  /** Phase 1, skipped when the band is empty from the start. */
  method DrawPhase(eligible: seq<Candidate>, count: nat, realAge: U64, samples: nat -> U64)
    returns (phase1: seq<Candidate>)
    ensures BandDrawn(InBand(eligible, realAge), count, phase1)
    ensures FollowsSamples(InBand(eligible, realAge), realAge, samples, phase1)
  {
    var (minAge, maxAge) := AgeSimilarityBand(realAge);
    if minAge <= maxAge {
      phase1 := DrawWithinBand(InBand(eligible, realAge), count, realAge, samples);
    } else {
      EmptyBand(eligible, realAge);
      phase1 := [];
    }
  }

  /** Phase 2 on top of phase 1 makes a two-phase choice, if enough is left. */
  lemma JoinPhases(band: seq<Candidate>, near: seq<Candidate>, count: nat, phase1: seq<Candidate>,
                   selected: seq<Candidate>)
    requires BandDrawn(band, count, phase1)
    requires selected == phase1 + near[..Min(count - |phase1|, |near|)]
    ensures |selected| == Min(count, |phase1| + |near|)
    ensures selected[..|phase1|] == phase1
    ensures |selected| == count ==> TwoPhase(band, near, count, selected)
  {
    if |selected| == count {
      TwoPhaseIntro(band, near, count, phase1, selected);
    }
  }

  /** Both phases, once at least `count` candidates are known to be eligible. */
  method BandThenNearest(eligible: seq<Candidate>, count: nat, realAge: U64, samples: nat -> U64)
    returns (selected: seq<Candidate>)
    ensures |selected| == Min(count, Reachable(eligible, realAge))
    ensures FollowsSamples(InBand(eligible, realAge), realAge, samples,
                           selected[..Min(|BandKeys(eligible, realAge)|, count)])
    ensures |selected| == count ==> AgeSimilarChoice(eligible, realAge, count, selected)
  {
    var phase1 := DrawPhase(eligible, count, realAge, samples);
    ghost var near := NearestFirst(Leftovers(eligible, realAge), realAge);
    if |phase1| < count {
      selected := FillNearest(phase1, NearestFirst(Unused(eligible, Image(phase1, KeyOf)), realAge), count);
    } else {
      selected := phase1;
      assert near[..0] == [];
    }
    JoinPhases(InBand(eligible, realAge), near, count, phase1, selected);
  }

  method SelectDecoysForInput(candidates: seq<Candidate>, count: nat, exclude: seq<Key>, realAge: U64,
                              gammaValid: bool, samples: nat -> U64)
    returns (r: Result<seq<Candidate>, DecoyError>)
    requires AgesFit(candidates, realAge)
    ensures var e := Eligible(candidates, exclude);
            if |e| < count then r == Err(InsufficientCandidates(count, |e|))
            else if !gammaValid then r == Err(InvalidDistribution)
            else if Reachable(e, realAge) < count
              then r == Err(InsufficientCandidates(count, Reachable(e, realAge)))
            else
              && r.Ok? && AgeSimilarChoice(e, realAge, count, r.value)
              && FollowsSamples(InBand(e, realAge), realAge, samples, r.value[..Min(|BandKeys(e, realAge)|, count)])
  {
    var eligible := Eligible(candidates, exclude);
    if |eligible| < count {
      return Err(InsufficientCandidates(count, |eligible|));
    }
    if !gammaValid {
      return Err(InvalidDistribution);
    }
    var selected := BandThenNearest(eligible, count, realAge, samples);
    if |selected| < count {
      return Err(InsufficientCandidates(count, |selected|));
    }
    return Ok(selected);
  }

  // ----- what a choice guarantees -----

  /** Every decoy is an eligible candidate, and none is used more often than it is offered. */
  lemma ChoiceIsEligible(e: seq<Candidate>, realAge: U64, count: nat, chosen: seq<Candidate>)
    requires AgeSimilarChoice(e, realAge, count, chosen)
    ensures multiset(chosen) <= multiset(e)
  {
    forall x: Candidate ensures multiset(chosen)[x] <= multiset(e)[x] {
      ChosenCopies(e, realAge, count, chosen, x);
    }
  }

  lemma ChosenCopies(e: seq<Candidate>, realAge: U64, count: nat, chosen: seq<Candidate>, x: Candidate)
    requires AgeSimilarChoice(e, realAge, count, chosen)
    ensures multiset(chosen)[x] <= multiset(e)[x]
  {
    var near := NearestFirst(Leftovers(e, realAge), realAge);
    LeftoverKeys(e, realAge);
    SortPermutes(Leftovers(e, realAge), DistanceTo(realAge));
    TwoPhaseCopies(InBand(e, realAge), near, count, chosen, x);
    FilterMultiset(e, (c: Candidate) => KeyOf(c) !in BandKeys(e, realAge), x);
  }

  lemma TwoPhaseCopies(band: seq<Candidate>, near: seq<Candidate>, count: nat, chosen: seq<Candidate>, x: Candidate)
    requires TwoPhase(band, near, count, chosen)
    requires forall c :: c in near ==> KeyOf(c) !in Image(band, KeyOf)
    ensures multiset(chosen)[x] <= if x in band then 1 else multiset(near)[x]
  {
    var d := Min(|Image(band, KeyOf)|, count);
    DistinctCopies(chosen[..d], x);
    SplitCopies(chosen, d, x);
    if d < count {
      SplitCopies(near, count - d, x);
      assert x in band ==> KeyOf(x) in Image(band, KeyOf);
    } else {
      assert chosen[d..] == [];
    }
  }

  lemma SplitCopies(s: seq<Candidate>, k: nat, x: Candidate)
    requires k <= |s|
    ensures multiset(s)[x] == multiset(s[..k])[x] + multiset(s[k..])[x]
    ensures multiset(s)[x] > 0 <==> x in s
    ensures multiset(s[..k])[x] > 0 <==> exists i :: 0 <= i < k && s[i] == x
  {
    assert s == s[..k] + s[k..];
    assert forall i :: 0 <= i < k ==> s[i] == s[..k][i];
    assert x in multiset(s[..k]) <==> x in s[..k];
  }

  lemma {:induction false} DistinctCopies(s: seq<Candidate>, x: Candidate)
    requires DistinctBy(s, KeyOf)
    ensures multiset(s)[x] <= 1
  {
    if s != [] {
      DistinctCopies(s[1..], x);
      assert s == [s[0]] + s[1..];
    }
  }

  /** With enough in-band keys every decoy is confirmed and at most 1.10x as old as the real input. */
  lemma BandedChoiceCapsAges(e: seq<Candidate>, realAge: U64, count: nat, chosen: seq<Candidate>, i: nat)
    requires AgeSimilarChoice(e, realAge, count, chosen) && |BandKeys(e, realAge)| >= count
    requires i < count
    ensures chosen[i].age >= MIN_DECOY_AGE_BLOCKS && 10_000 * chosen[i].age <= 11_000 * realAge
  {
    assert chosen[i] in InBand(e, realAge);
    AgeBandMeaning(realAge, chosen[i].age);
  }

  /** Phase 2 does not re-check keys: the chosen keys are pairwise distinct exactly when the band
      fills every slot or the leftovers that fill the rest carry distinct keys. */
  lemma ChoiceKeysDistinctIff(e: seq<Candidate>, realAge: U64, count: nat, chosen: seq<Candidate>)
    requires AgeSimilarChoice(e, realAge, count, chosen)
    ensures DistinctBy(chosen, KeyOf) <==>
            var d := |BandKeys(e, realAge)|;
            d >= count || DistinctBy(NearestFirst(Leftovers(e, realAge), realAge)[..count - d], KeyOf)
  {
    var near := NearestFirst(Leftovers(e, realAge), realAge);
    LeftoverKeys(e, realAge);
    TwoPhaseDistinctIff(InBand(e, realAge), near, count, chosen);
  }

  lemma TwoPhaseDistinctIff(band: seq<Candidate>, near: seq<Candidate>, count: nat, chosen: seq<Candidate>)
    requires TwoPhase(band, near, count, chosen)
    requires forall c :: c in near ==> KeyOf(c) !in Image(band, KeyOf)
    ensures DistinctBy(chosen, KeyOf) <==>
            var d := |Image(band, KeyOf)|;
            d >= count || DistinctBy(near[..count - d], KeyOf)
  {
    var d := Min(|Image(band, KeyOf)|, count);
    if d < count {
      forall i | 0 <= i < count ensures KeyOf(chosen[i]) in Image(band, KeyOf) <==> i < d {
        ChosenAt(band, near, count, chosen, i);
      }
      DistinctParts(chosen, d, Image(band, KeyOf));
    } else {
      assert chosen[..d] == chosen;
    }
  }

  lemma LeftoverKeys(e: seq<Candidate>, realAge: U64)
    ensures forall c :: c in NearestFirst(Leftovers(e, realAge), realAge) ==>
              KeyOf(c) !in BandKeys(e, realAge) && c in e
  {
    var near := NearestFirst(Leftovers(e, realAge), realAge);
    SortPermutes(Leftovers(e, realAge), DistanceTo(realAge));
    forall c | c in near ensures KeyOf(c) !in BandKeys(e, realAge) && c in e {
      assert c in multiset(near);
      assert c in Leftovers(e, realAge);
    }
  }

  lemma DistinctParts(s: seq<Candidate>, d: nat, keys: set<Key>)
    requires d <= |s|
    requires forall i :: 0 <= i < d ==> KeyOf(s[i]) in keys
    requires forall i :: d <= i < |s| ==> KeyOf(s[i]) !in keys
    ensures DistinctBy(s, KeyOf) <==> DistinctBy(s[..d], KeyOf) && DistinctBy(s[d..], KeyOf)
  {
    if DistinctBy(s[..d], KeyOf) && DistinctBy(s[d..], KeyOf) {
      forall i, j | 0 <= i < j < |s| ensures KeyOf(s[i]) != KeyOf(s[j]) {
        if i >= d {
          assert s[i] == s[d..][i - d] && s[j] == s[d..][j - d];
        } else if j < d {
          assert s[i] == s[..d][i] && s[j] == s[..d][j];
        }
      }
    }
  }

  // ----- with pairwise distinct candidate keys -----

  lemma SameKeySameCandidate(e: seq<Candidate>, a: Candidate, b: Candidate)
    requires DistinctBy(e, KeyOf) && a in e && b in e
    ensures KeyOf(a) == KeyOf(b) ==> a == b
  {
  }

  lemma BandKeyMeansInBand(e: seq<Candidate>, realAge: U64, u: Candidate)
    requires DistinctBy(e, KeyOf) && u in e
    ensures KeyOf(u) in BandKeys(e, realAge) <==> InAgeBand(u.age, realAge)
  {
    var band := InBand(e, realAge);
    if KeyOf(u) in BandKeys(e, realAge) {
      var i :| 0 <= i < |band| && KeyOf(band[i]) == KeyOf(u);
      assert band[i] in band;
      SameKeySameCandidate(e, band[i], u);
    }
    if InAgeBand(u.age, realAge) {
      assert u in band;
    }
  }

  /** Then the selection succeeds exactly when `count` candidates are eligible. */
  lemma DistinctKeysReachAll(e: seq<Candidate>, realAge: U64)
    requires DistinctBy(e, KeyOf)
    ensures Reachable(e, realAge) == |e|
  {
    var keys := BandKeys(e, realAge);
    forall u | u in e ensures InAgeBand(u.age, realAge) == (KeyOf(u) in keys) {
      BandKeyMeansInBand(e, realAge, u);
    }
    FilterSplit(e, (c: Candidate) => InAgeBand(c.age, realAge), (c: Candidate) => KeyOf(c) !in keys);
    FilterDistinct(e, (c: Candidate) => InAgeBand(c.age, realAge), KeyOf);
    ImageSize(InBand(e, realAge), KeyOf);
  }

  /** And the chosen keys are pairwise distinct. */
  lemma DistinctKeysStayDistinct(e: seq<Candidate>, realAge: U64, count: nat, chosen: seq<Candidate>)
    requires DistinctBy(e, KeyOf) && AgeSimilarChoice(e, realAge, count, chosen)
    ensures DistinctBy(chosen, KeyOf)
  {
    ChoiceKeysDistinctIff(e, realAge, count, chosen);
    var left := Leftovers(e, realAge);
    FilterDistinct(e, (c: Candidate) => KeyOf(c) !in BandKeys(e, realAge), KeyOf);
    SortPermutes(left, DistanceTo(realAge));
    DistinctPermuted(left, NearestFirst(left, realAge), KeyOf);
  }

  ghost predicate Confirmed(e: seq<Candidate>) {
    forall i :: 0 <= i < |e| ==> MIN_DECOY_AGE_BLOCKS <= e[i].age < I64_RANGE
  }

  lemma BandIsNearer(realAge: U64, inside: U64, outside: U64)
    requires InAgeBand(inside, realAge) && !InAgeBand(outside, realAge) && outside >= MIN_DECOY_AGE_BLOCKS
    ensures AbsDiff(inside, realAge) <= AbsDiff(outside, realAge)
  {
    AgeBandMeaning(realAge, inside);
    AgeBandMeaning(realAge, outside);
  }

  /** In the fallback no candidate left out is nearer to the real age than one taken. */
  lemma NoneLeftOutIsNearer(e: seq<Candidate>, realAge: U64, count: nat, chosen: seq<Candidate>, u: Candidate,
                            c: Candidate)
    requires DistinctBy(e, KeyOf) && Confirmed(e) && realAge < I64_RANGE
    requires AgeSimilarChoice(e, realAge, count, chosen) && |BandKeys(e, realAge)| < count
    requires u in e && u !in chosen && c in chosen
    ensures AbsDiff(c.age, realAge) <= AbsDiff(u.age, realAge)
  {
    var near := NearestFirst(Leftovers(e, realAge), realAge);
    var i :| 0 <= i < count && chosen[i] == c;
    ChosenAt(InBand(e, realAge), near, count, chosen, i);
    UnchosenIsLeftover(e, realAge, count, chosen, u);
    if i < |BandKeys(e, realAge)| {
      BandIsNearer(realAge, c.age, u.age);
    } else {
      TailIsNearest(e, realAge, count - |BandKeys(e, realAge)|, i - |BandKeys(e, realAge)|, u);
    }
  }

  lemma BandKeyIsChosen(e: seq<Candidate>, realAge: U64, count: nat, chosen: seq<Candidate>, u: Candidate)
    requires DistinctBy(e, KeyOf) && u in e
    requires AgeSimilarChoice(e, realAge, count, chosen) && |BandKeys(e, realAge)| < count
    ensures KeyOf(u) in BandKeys(e, realAge) ==> u in chosen
  {
    if KeyOf(u) in BandKeys(e, realAge) {
      ChosenKey(InBand(e, realAge), NearestFirst(Leftovers(e, realAge), realAge), count, chosen, KeyOf(u));
      var c :| c in chosen && c in InBand(e, realAge) && KeyOf(c) == KeyOf(u);
      SameKeySameCandidate(e, c, u);
    }
  }

  lemma UnchosenIsLeftover(e: seq<Candidate>, realAge: U64, count: nat, chosen: seq<Candidate>, u: Candidate)
    requires DistinctBy(e, KeyOf)
    requires AgeSimilarChoice(e, realAge, count, chosen) && |BandKeys(e, realAge)| < count
    requires u in e && u !in chosen
    ensures u in Leftovers(e, realAge) && !InAgeBand(u.age, realAge)
    ensures u !in NearestFirst(Leftovers(e, realAge), realAge)[..count - |BandKeys(e, realAge)|]
  {
    var d := |BandKeys(e, realAge)|;
    BandKeyIsChosen(e, realAge, count, chosen, u);
    BandKeyMeansInBand(e, realAge, u);
    assert forall x :: x in chosen[d..] ==> x in chosen;
  }

  lemma TailIsNearest(e: seq<Candidate>, realAge: U64, k: nat, i: nat, u: Candidate)
    requires Confirmed(e) && realAge < I64_RANGE
    requires i < k <= |Leftovers(e, realAge)|
    requires u in Leftovers(e, realAge) && u !in NearestFirst(Leftovers(e, realAge), realAge)[..k]
    ensures AbsDiff(NearestFirst(Leftovers(e, realAge), realAge)[i].age, realAge) <= AbsDiff(u.age, realAge)
  {
    var near := NearestFirst(Leftovers(e, realAge), realAge);
    SortSorted(Leftovers(e, realAge), DistanceTo(realAge));
    SortPermutes(Leftovers(e, realAge), DistanceTo(realAge));
    assert u in multiset(near);
    FrontIsLeast(near, DistanceTo(realAge), k, i, u);
    LeftoverKeys(e, realAge);
    ExactDistance(e, realAge, near[i]);
    ExactDistance(e, realAge, u);
  }

  lemma ExactDistance(e: seq<Candidate>, realAge: U64, c: Candidate)
    requires Confirmed(e) && realAge < I64_RANGE && c in e
    ensures DistanceTo(realAge)(c) == AbsDiff(c.age, realAge)
  {
  }

  /** The largest age distance in a set of decoys. */
  function Spread(s: seq<Candidate>, realAge: U64): (r: nat)
    ensures forall c :: c in s ==> AbsDiff(c.age, realAge) <= r
    ensures s != [] ==> exists c :: c in s && AbsDiff(c.age, realAge) == r
  {
    if s == [] then 0
    else
      var rest := Spread(s[1..], realAge);
      assert s[0] in s;
      assert forall c :: c in s[1..] ==> c in s;
      Max(AbsDiff(s[0].age, realAge), rest)
  }

  /** Minimax: no other `count` eligible candidates have a smaller largest age distance. */
  lemma FallbackIsMinimax(e: seq<Candidate>, realAge: U64, count: nat, chosen: seq<Candidate>, other: seq<Candidate>)
    requires DistinctBy(e, KeyOf) && Confirmed(e) && realAge < I64_RANGE
    requires AgeSimilarChoice(e, realAge, count, chosen) && |BandKeys(e, realAge)| < count
    requires |other| == count && multiset(other) <= multiset(e)
    ensures Spread(chosen, realAge) <= Spread(other, realAge)
  {
    assert |chosen| == count && chosen != [];
    var c :| c in chosen && AbsDiff(c.age, realAge) == Spread(chosen, realAge);
    SomeOtherAsFar(e, realAge, count, chosen, other, c);
  }

  /** Against any chosen candidate, some member of any other choice is at least as far. */
  lemma SomeOtherAsFar(e: seq<Candidate>, realAge: U64, count: nat, chosen: seq<Candidate>, other: seq<Candidate>,
                       c: Candidate)
    requires DistinctBy(e, KeyOf) && Confirmed(e) && realAge < I64_RANGE
    requires AgeSimilarChoice(e, realAge, count, chosen) && |BandKeys(e, realAge)| < count
    requires |other| == count && multiset(other) <= multiset(e) && c in chosen
    ensures exists u :: u in other && AbsDiff(c.age, realAge) <= AbsDiff(u.age, realAge)
  {
    if forall u :: u in other ==> AbsDiff(u.age, realAge) < AbsDiff(c.age, realAge) {
      forall u | u in other ensures u in chosen && u != c {
        assert u in multiset(other);
        NearerIsChosen(e, realAge, count, chosen, u, c);
      }
      DistinctKeysStayDistinct(e, realAge, count, chosen);
      SubMultisetDistinct(e, other);
      SmallerImage(other, chosen, c);
    }
  }

  lemma NearerIsChosen(e: seq<Candidate>, realAge: U64, count: nat, chosen: seq<Candidate>, u: Candidate, c: Candidate)
    requires DistinctBy(e, KeyOf) && Confirmed(e) && realAge < I64_RANGE
    requires AgeSimilarChoice(e, realAge, count, chosen) && |BandKeys(e, realAge)| < count
    requires u in e && c in chosen
    ensures AbsDiff(u.age, realAge) < AbsDiff(c.age, realAge) ==> u in chosen
  {
    if u !in chosen {
      NoneLeftOutIsNearer(e, realAge, count, chosen, u, c);
    }
  }

  lemma SubMultisetDistinct(e: seq<Candidate>, s: seq<Candidate>)
    requires DistinctBy(e, KeyOf) && multiset(s) <= multiset(e)
    ensures DistinctBy(s, KeyOf)
  {
    forall i, j | 0 <= i < j < |s| ensures KeyOf(s[i]) != KeyOf(s[j]) {
      assert s[i] in multiset(s) && s[j] in multiset(s);
      if KeyOf(s[i]) == KeyOf(s[j]) {
        SameKeySameCandidate(e, s[i], s[j]);
        DistinctCopies(e, s[i]);
        TwoCopies(s, i, j);
        assert false;
      }
    }
  }

  lemma TwoCopies(s: seq<Candidate>, i: nat, j: nat)
    requires i < j < |s| && s[i] == s[j]
    ensures multiset(s)[s[i]] >= 2
  {
    assert s == s[..j] + s[j..];
    assert s[..j][i] in multiset(s[..j]) && s[j..][0] in multiset(s[j..]);
  }

  lemma SmallerImage(other: seq<Candidate>, chosen: seq<Candidate>, c: Candidate)
    requires DistinctBy(other, KeyOf) && DistinctBy(chosen, KeyOf)
    requires c in chosen && forall u :: u in other ==> u in chosen && u != c
    ensures |other| < |chosen|
  {
    ImageSize(other, KeyOf);
    ImageSize(chosen, KeyOf);
    assert KeyOf(c) in Image(chosen, KeyOf);
    forall i | 0 <= i < |other| ensures KeyOf(other[i]) in Image(chosen, KeyOf) - {KeyOf(c)} {
      var o := other[i];
      assert o in other;
      SameKeySameCandidate(chosen, o, c);
    }
    SubsetSize(Image(other, KeyOf), Image(chosen, KeyOf) - {KeyOf(c)});
  }

  // ----- the oldest ring member -----

  /** The age of the oldest member of a ring: the real input and its decoys. */
  function RingAge(s: seq<Candidate>, realAge: U64): (r: nat)
    ensures realAge <= r && forall c :: c in s ==> c.age <= r
    ensures r == realAge || exists c :: c in s && c.age == r
  {
    if s == [] then realAge
    else
      var rest := RingAge(s[1..], realAge);
      assert s[0] in s;
      assert forall c :: c in s[1..] ==> c in s;
      Max(s[0].age, rest)
  }

  function Younger(e: seq<Candidate>, age: nat): seq<Candidate> {
    Filter(e, (c: Candidate) => c.age < age)
  }

  /** No other choice of as many candidates makes a ring with a younger oldest member. */
  ghost predicate LeastRingAge(e: seq<Candidate>, realAge: U64, count: nat, chosen: seq<Candidate>) {
    forall other :: |other| == count && multiset(other) <= multiset(e) ==>
      RingAge(chosen, realAge) <= RingAge(other, realAge)
  }

  /** The ring is as young as the pool allows exactly when nobody chosen is older than the real input
      while enough candidates are younger than that one. */
  lemma LeastRingAgeIff(e: seq<Candidate>, realAge: U64, count: nat, chosen: seq<Candidate>)
    requires AgeSimilarChoice(e, realAge, count, chosen)
    ensures LeastRingAge(e, realAge, count, chosen) <==>
            forall c :: c in chosen && c.age > realAge ==> |Younger(e, c.age)| < count
  {
    if LeastRingAge(e, realAge, count, chosen) {
      forall c | c in chosen && c.age > realAge ensures |Younger(e, c.age)| < count {
        YoungerRing(e, realAge, count, c.age);
      }
    } else {
      var other :| |other| == count && multiset(other) <= multiset(e)
                   && RingAge(chosen, realAge) > RingAge(other, realAge);
      var c :| c in chosen && c.age == RingAge(chosen, realAge);
      AllYounger(e, other, c.age);
    }
  }

  /** With enough younger candidates a younger ring exists. */
  lemma YoungerRing(e: seq<Candidate>, realAge: U64, count: nat, age: nat)
    requires age > realAge
    ensures |Younger(e, age)| >= count ==>
              exists other :: |other| == count && multiset(other) <= multiset(e) && RingAge(other, realAge) < age
  {
    var younger := Younger(e, age);
    if |younger| >= count {
      var other := younger[..count];
      assert younger == other + younger[count..];
      forall x: Candidate ensures multiset(other)[x] <= multiset(e)[x] {
        FilterMultiset(e, (c: Candidate) => c.age < age, x);
        assert multiset(younger)[x] == multiset(other)[x] + multiset(younger[count..])[x];
      }
      forall c | c in other ensures c.age < age {
        assert c in younger;
      }
      assert RingAge(other, realAge) < age;
    }
  }

  /** A choice of younger candidates fits among them. */
  lemma AllYounger(e: seq<Candidate>, other: seq<Candidate>, age: nat)
    requires multiset(other) <= multiset(e) && forall c :: c in other ==> c.age < age
    ensures |Younger(e, age)| >= |other|
  {
    var younger := Younger(e, age);
    forall x: Candidate ensures multiset(other)[x] <= multiset(younger)[x] {
      FilterMultiset(e, (c: Candidate) => c.age < age, x);
      assert x in multiset(other) <==> x in other;
    }
    SubMultisetLength(other, younger);
  }

  lemma SubMultisetLength(a: seq<Candidate>, b: seq<Candidate>)
    requires multiset(a) <= multiset(b)
    ensures |a| <= |b|
  {
    assert multiset(b) == multiset(a) + (multiset(b) - multiset(a));
    assert |multiset(a)| == |a| && |multiset(b)| == |b|;
  }

  /** What the fallback takes, whatever is drawn: the whole band, then the nearest of the rest. */
  function Taken(e: seq<Candidate>, realAge: U64, count: nat): seq<Candidate>
    requires |BandKeys(e, realAge)| <= count <= Reachable(e, realAge)
  {
    InBand(e, realAge) + NearestFirst(Leftovers(e, realAge), realAge)[..count - |BandKeys(e, realAge)|]
  }

  lemma ChosenIsTaken(e: seq<Candidate>, realAge: U64, count: nat, chosen: seq<Candidate>, c: Candidate)
    requires DistinctBy(e, KeyOf) && |BandKeys(e, realAge)| < count <= Reachable(e, realAge)
    requires AgeSimilarChoice(e, realAge, count, chosen)
    ensures c in chosen <==> c in Taken(e, realAge, count)
  {
    var band, near, d := InBand(e, realAge), NearestFirst(Leftovers(e, realAge), realAge), |BandKeys(e, realAge)|;
    TakenParts(band, near, count, chosen, c);
    if c in band {
      assert KeyOf(c) in BandKeys(e, realAge);
      BandKeyIsChosen(e, realAge, count, chosen, c);
    }
  }

  lemma TakenParts(band: seq<Candidate>, near: seq<Candidate>, count: nat, chosen: seq<Candidate>, c: Candidate)
    requires TwoPhase(band, near, count, chosen) && |Image(band, KeyOf)| < count
    ensures var d := |Image(band, KeyOf)|;
            (c in chosen ==> c in band || c in near[..count - d]) && (c in near[..count - d] ==> c in chosen)
  {
    var d := |Image(band, KeyOf)|;
    assert chosen == chosen[..d] + chosen[d..];
    if c in chosen {
      var i :| 0 <= i < count && chosen[i] == c;
      ChosenAt(band, near, count, chosen, i);
    }
  }

  /** Over distinct keys, then, the promise of the fallback holds exactly when nobody it takes is older
      than the real input while enough candidates are younger than that one: a condition on the pool. */
  lemma FallbackLeastRingAgeIff(e: seq<Candidate>, realAge: U64, count: nat, chosen: seq<Candidate>)
    requires DistinctBy(e, KeyOf) && |BandKeys(e, realAge)| < count <= Reachable(e, realAge)
    requires AgeSimilarChoice(e, realAge, count, chosen)
    ensures LeastRingAge(e, realAge, count, chosen) <==>
            forall c :: c in Taken(e, realAge, count) && c.age > realAge ==> |Younger(e, c.age)| < count
  {
    LeastRingAgeIff(e, realAge, count, chosen);
    forall c: Candidate ensures c in chosen <==> c in Taken(e, realAge, count) {
      ChosenIsTaken(e, realAge, count, chosen, c);
    }
  }

  /** It always holds when no candidate is younger than the real input. */
  lemma NoneYoungerIsEnough(e: seq<Candidate>, realAge: U64, count: nat, chosen: seq<Candidate>)
    requires DistinctBy(e, KeyOf) && Confirmed(e) && realAge < I64_RANGE
    requires AgeSimilarChoice(e, realAge, count, chosen) && |BandKeys(e, realAge)| < count
    requires forall c :: c in e ==> c.age >= realAge
    ensures LeastRingAge(e, realAge, count, chosen)
  {
    forall c | c in chosen && c.age > realAge ensures |Younger(e, c.age)| < count {
      var younger := Younger(e, c.age);
      forall u | u in younger ensures u in chosen && u != c {
        NearerIsChosen(e, realAge, count, chosen, u, c);
      }
      FilterDistinct(e, (u: Candidate) => u.age < c.age, KeyOf);
      DistinctKeysStayDistinct(e, realAge, count, chosen);
      SmallerImage(younger, chosen, c);
    }
    LeastRingAgeIff(e, realAge, count, chosen);
  }

  const AGED_50: Candidate := Candidate(TxOutput(1, 1), 50, map[], FACTOR_SCALE)
  const AGED_130: Candidate := Candidate(TxOutput(2, 1), 130, map[], FACTOR_SCALE)

  /** Not in general: for a real age of 100 the nearest is aged 130, and the ring is 130 old, where the
      other candidate would leave it at 100. */
  lemma NearestCanBeOlder(chosen: seq<Candidate>)
    ensures Reachable([AGED_50, AGED_130], 100) == 2
    ensures AgeSimilarChoice([AGED_50, AGED_130], 100, 1, chosen) ==>
              chosen == [AGED_130] && RingAge(chosen, 100) == 130 && RingAge([AGED_50], 100) == 100
  {
    var e := [AGED_50, AGED_130];
    BothOutOfBand();
    if AgeSimilarChoice(e, 100, 1, chosen) {
      ChoiceIsEligible(e, 100, 1, chosen);
      OneOfTwo(chosen, AGED_50, AGED_130);
      NearerIsChosen(e, 100, 1, chosen, AGED_130, chosen[0]);
      OneRingAge(AGED_130, 100);
      OneRingAge(AGED_50, 100);
    }
  }

  lemma BothOutOfBand()
    ensures BandKeys([AGED_50, AGED_130], 100) == {} && Reachable([AGED_50, AGED_130], 100) == 2
  {
    var e := [AGED_50, AGED_130];
    FilterNone(e, (c: Candidate) => InAgeBand(c.age, 100));
    assert BandKeys(e, 100) == {};
    FilterAll(e, (c: Candidate) => KeyOf(c) !in BandKeys(e, 100));
  }

  lemma OneOfTwo(s: seq<Candidate>, a: Candidate, b: Candidate)
    requires |s| == 1 && multiset(s) <= multiset([a, b])
    ensures s == [a] || s == [b]
  {
    assert s[0] in multiset(s);
    assert s[0] in multiset([a, b]);
    assert s[0] in [a, b];
  }

  lemma OneRingAge(c: Candidate, realAge: U64)
    ensures RingAge([c], realAge) == Max(c.age, realAge)
  {
    assert c in [c];
  }

  // ----- and without them -----

  const FAR: Candidate := Candidate(TxOutput(7, 1), 500, map[], FACTOR_SCALE)
  const CLOSE: Candidate := Candidate(TxOutput(7, 1), 105, map[], FACTOR_SCALE)

  /** Two far-aged candidates sharing one key suffice for two decoys, and both are chosen: the ring then
      repeats a key. */
  lemma DuplicateKeysCanBothBeChosen(chosen: seq<Candidate>)
    ensures Reachable([FAR, FAR], 100) == 2
    ensures AgeSimilarChoice([FAR, FAR], 100, 2, chosen) ==> !DistinctBy(chosen, KeyOf)
  {
    var e := [FAR, FAR];
    FilterNone(e, (c: Candidate) => InAgeBand(c.age, 100));
    assert BandKeys(e, 100) == {};
    FilterAll(e, (c: Candidate) => KeyOf(c) !in BandKeys(e, 100));
    if AgeSimilarChoice(e, 100, 2, chosen) {
      ChoiceIsEligible(e, 100, 2, chosen);
      OnlyCopies(chosen, e, FAR);
      assert chosen[0] == chosen[1];
    }
  }

  lemma OnlyCopies(s: seq<Candidate>, e: seq<Candidate>, c: Candidate)
    requires multiset(s) <= multiset(e) && forall x :: x in e ==> x == c
    ensures forall i :: 0 <= i < |s| ==> s[i] == c
  {
    forall i | 0 <= i < |s| ensures s[i] == c {
      assert s[i] in multiset(s);
      assert s[i] in multiset(e);
      assert s[i] in e;
    }
  }

  /** The same pair inside the band yields one decoy: two eligible candidates, and still a failure. */
  lemma DuplicateKeysCanFail()
    ensures Reachable([CLOSE, CLOSE], 100) == 1
  {
    var s := [CLOSE, CLOSE];
    FilterAll(s, (c: Candidate) => InAgeBand(c.age, 100));
    assert KeyOf(InBand(s, 100)[0]) in BandKeys(s, 100);
    assert BandKeys(s, 100) == {7};
    FilterNone(s, (c: Candidate) => KeyOf(c) !in BandKeys(s, 100));
  }
}
