/** Decoy candidates and the two similarity bands around a real input. */
module Candidates {
  import opened Machine
  import opened Sequences

  const MIN_DECOY_AGE_BLOCKS: U64 := 10
  const AGE_SIMILARITY_SPREAD_BPS: U64 := 1_000
  const FACTOR_SCALE: U64 := 1_000
  const MAX_FACTOR_SCALED: U64 := 6 * FACTOR_SCALE
  const FACTOR_SIMILARITY_SPREAD: U64 := 1_000

  /** A 32-byte one-time key, read as a big-endian number: byte-wise order is numeric order. */
  type Key = nat

  datatype TxOutput = TxOutput(targetKey: Key, amount: U64)

  datatype Candidate = Candidate(output: TxOutput, age: U64, tags: map<U64, U32>, factor: U64)

  datatype DecoyError = InsufficientCandidates(required: nat, available: nat) | InvalidDistribution

  function KeyOf(c: Candidate): Key {
    c.output.targetKey
  }

  function TotalValue(ring: seq<Candidate>): nat {
    if ring == [] then 0 else TotalValue(ring[..|ring| - 1]) + ring[|ring| - 1].output.amount
  }

  /** Confirmed and not one of the spender's own inputs. */
  predicate IsEligible(c: Candidate, exclude: seq<Key>) {
    c.age >= MIN_DECOY_AGE_BLOCKS && KeyOf(c) !in exclude
  }

  function Eligible(candidates: seq<Candidate>, exclude: seq<Key>): seq<Candidate> {
    Filter(candidates, (c: Candidate) => IsEligible(c, exclude))
  }

  // ----- the age band -----

  function AgeSimilarityBand(realAge: U64): (U64, U64) {
    var delta := realAge * AGE_SIMILARITY_SPREAD_BPS / 10_000;
    (Max(SatSub(realAge, delta), MIN_DECOY_AGE_BLOCKS), SatAdd(realAge, delta))
  }

  predicate InAgeBand(age: U64, realAge: U64) {
    var (lo, hi) := AgeSimilarityBand(realAge);
    lo <= age <= hi
  }

  /** The band is exactly "confirmed, and within a tenth of the real age", saturation included;
      it is degenerate exactly for unconfirmed inputs, and it caps a member's age at 1.10x. */
  lemma AgeBandMeaning(realAge: U64, age: U64)
    ensures InAgeBand(age, realAge)
            <==> age >= MIN_DECOY_AGE_BLOCKS && 10 * AbsDiff(age, realAge) <= realAge
    ensures AgeSimilarityBand(realAge).0 > AgeSimilarityBand(realAge).1 <==> realAge < MIN_DECOY_AGE_BLOCKS
    ensures InAgeBand(age, realAge) ==> 10_000 * age <= 11_000 * realAge
  {
    assert realAge * AGE_SIMILARITY_SPREAD_BPS / 10_000 == realAge / 10;
  }

  // ----- the factor band -----

  function FactorSimilarityBand(realFactor: U64): (U64, U64) {
    var f := Clamp(realFactor, FACTOR_SCALE, MAX_FACTOR_SCALED);
    var delta := f * FACTOR_SIMILARITY_SPREAD / 10_000;
    (Max(SatSub(f, delta), FACTOR_SCALE), Min(SatAdd(f, delta), MAX_FACTOR_SCALED))
  }

  predicate InFactorBand(factor: U64, realFactor: U64) {
    var (lo, hi) := FactorSimilarityBand(realFactor);
    lo <= factor <= hi
  }

  /** The band is exactly "a valid factor within a tenth of the (clamped) real factor". */
  lemma FactorBandMeaning(realFactor: U64, factor: U64)
    ensures var f := Clamp(realFactor, FACTOR_SCALE, MAX_FACTOR_SCALED);
            && InFactorBand(f, realFactor)
            && (InFactorBand(factor, realFactor)
                <==> FACTOR_SCALE <= factor <= MAX_FACTOR_SCALED && 10 * AbsDiff(factor, f) <= f)
    ensures realFactor <= FACTOR_SCALE ==> FactorSimilarityBand(realFactor) == (1_000, 1_100)
  {
    var f := Clamp(realFactor, FACTOR_SCALE, MAX_FACTOR_SCALED);
    assert f * FACTOR_SIMILARITY_SPREAD / 10_000 == f / 10;
  }
}
