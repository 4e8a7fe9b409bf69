/**
 The value-weighted centroid of a ring's cluster tags and the wallet's pre-flight check against it:
 `validate_ring_centroid_compatibility`.
 */
module Centroid {
  import opened Machine
  import opened Arithmetic
  import opened Candidates
  import opened TagSimilarity

  // ----- sums over sets of clusters -----

  ghost function SumOver(s: set<U64>, f: U64 -> nat): nat {
    if s == {} then 0
    else
      var x :| x in s;
      f(x) + SumOver(s - {x}, f)
  }

  lemma {:induction false} SumPick(s: set<U64>, f: U64 -> nat, x: U64)
    requires x in s
    ensures SumOver(s, f) == f(x) + SumOver(s - {x}, f)
    decreases s
  {
    var y :| y in s && SumOver(s, f) == f(y) + SumOver(s - {y}, f);
    if x != y {
      SumPick(s - {y}, f, x);
      SumPick(s - {x}, f, y);
      assert s - {x} - {y} == s - {y} - {x};
    }
  }

  /** Members where `f` vanishes may be dropped. */
  lemma {:induction false} SumSupport(s: set<U64>, t: set<U64>, f: U64 -> nat)
    requires t <= s && forall x :: x in s - t ==> f(x) == 0
    ensures SumOver(s, f) == SumOver(t, f)
    decreases s
  {
    if exists x :: x in s && x !in t {
      var x :| x in s && x !in t;
      SumPick(s, f, x);
      SumSupport(s - {x}, t, f);
    } else {
      assert s == t;
    }
  }

  function Weights(t: Tags): U64 -> nat {
    (c: U64) => Weight(t, c)
  }

  /** Total attributed weight of a tag vector. */
  ghost function Attributed(t: Tags): nat {
    SumOver(t.Keys, Weights(t))
  }

  // ----- the centroid -----

  function MemberMass(member: Candidate, c: U64): nat {
    member.output.amount * Weight(member.tags, c)
  }

  function Mass(ring: seq<Candidate>, c: U64): nat {
    if ring == [] then 0 else Mass(ring[..|ring| - 1], c) + MemberMass(ring[|ring| - 1], c)
  }

  function Clusters(ring: seq<Candidate>): set<U64> {
    if ring == [] then {} else Clusters(ring[..|ring| - 1]) + ring[|ring| - 1].tags.Keys
  }

  lemma {:induction false} MassBelow(ring: seq<Candidate>, c: U64)
    ensures Mass(ring, c) <= TotalValue(ring) * U32_MAX
  {
    if ring != [] {
      var n := |ring| - 1;
      MassBelow(ring[..n], c);
      MassBelowStep(TotalValue(ring[..n]), ring[n].output.amount, Weight(ring[n].tags, c), Mass(ring[..n], c), U32_MAX);
    }
  }

  lemma MassBelowStep(t: nat, a: nat, w: nat, m: nat, bound: nat)
    requires m <= t * bound && w <= bound
    ensures m + a * w <= (t + a) * bound
  {
    MulLe(w, bound, a);
    assert (t + a) * bound == t * bound + a * bound;
  }

  /** No cluster outweighs the ring: each share fits u32, so the narrowing cast truncates nothing, and
      each mass fits u128. */
  lemma ShareFits(ring: seq<Candidate>, c: U64)
    requires TotalValue(ring) > 0
    ensures 0 <= Mass(ring, c) / TotalValue(ring) <= U32_MAX
    ensures TotalValue(ring) <= U64_MAX ==> Mass(ring, c) <= U128_MAX
  {
    var t, m := TotalValue(ring), Mass(ring, c);
    MassBelow(ring, c);
    DivIs(U32_MAX * t, t, U32_MAX);
    DivMonotone(m, U32_MAX * t, t);
    QuotientBelow(m, t);
    MulLe(t, U64_MAX, U32_MAX);
  }

  function Share(ring: seq<Candidate>, c: U64): U32
    requires TotalValue(ring) > 0
  {
    ShareFits(ring, c);
    Mass(ring, c) / TotalValue(ring)
  }

  ghost function CentroidOf(ring: seq<Candidate>): Tags
    requires TotalValue(ring) > 0
  {
    map c | c in Clusters(ring) :: Share(ring, c)
  }

  lemma {:induction false} NoMassOutside(ring: seq<Candidate>, c: U64)
    ensures c !in Clusters(ring) ==> Mass(ring, c) == 0
  {
    if ring != [] {
      NoMassOutside(ring[..|ring| - 1], c);
    }
  }

  /** Accumulate the value-weighted mass of every cluster, members in order, tags in any order. */
  method AccumulateMasses(ring: seq<Candidate>) returns (masses: map<U64, nat>)
    ensures masses.Keys == Clusters(ring)
    ensures forall c :: c in masses ==> masses[c] == Mass(ring, c)
  {
    masses := map[];
    for i := 0 to |ring|
      invariant masses.Keys == Clusters(ring[..i])
      invariant forall c :: c in masses ==> masses[c] == Mass(ring[..i], c)
    {
      assert ring[..i + 1][..i] == ring[..i];
      masses := AddMember(masses, ring[..i], ring[i]);
    }
    assert ring[..|ring|] == ring;
  }

  method AddMember(before: map<U64, nat>, ghost prefix: seq<Candidate>,
                   member: Candidate) returns (masses: map<U64, nat>)
    requires before.Keys == Clusters(prefix)
    requires forall c :: c in before ==> before[c] == Mass(prefix, c)
    ensures masses.Keys == Clusters(prefix) + member.tags.Keys
    ensures forall c :: c in masses ==> masses[c] == Mass(prefix, c) + MemberMass(member, c)
  {
    masses := before;
    var todo := member.tags.Keys;
    while todo != {}
      invariant todo <= member.tags.Keys
      invariant masses.Keys == before.Keys + (member.tags.Keys - todo)
      invariant forall c :: c in masses ==>
        masses[c] == Mass(prefix, c) + if c in todo then 0 else MemberMass(member, c)
      decreases todo
    {
      var c :| c in todo;
      NoMassOutside(prefix, c);
      masses := masses[c := (if c in masses then masses[c] else 0) + MemberMass(member, c)];
      todo := todo - {c};
    }
  }

  // ----- centroid weights never exceed the scale -----

  function Masses(ring: seq<Candidate>): U64 -> nat {
    (c: U64) => Mass(ring, c)
  }

  ghost function Shares(ring: seq<Candidate>): U64 -> nat
    requires TotalValue(ring) > 0
  {
    (c: U64) => Share(ring, c)
  }

  /** Exchange of the two sums: adding one member adds its value times its attributed weight. */
  lemma {:induction false} MassSumStep(ring: seq<Candidate>, s: set<U64>)
    requires ring != []
    ensures var n := |ring| - 1;
            SumOver(s, Masses(ring))
            == SumOver(s, Masses(ring[..n])) + ring[n].output.amount * SumOver(s, Weights(ring[n].tags))
    decreases s
  {
    if s != {} {
      var n := |ring| - 1;
      var x :| x in s;
      SumPick(s, Masses(ring), x);
      SumPick(s, Masses(ring[..n]), x);
      SumPick(s, Weights(ring[n].tags), x);
      MassSumStep(ring, s - {x});
      Distribute(ring[n].output.amount, Weight(ring[n].tags, x), SumOver(s - {x}, Weights(ring[n].tags)));
    }
  }

  lemma Distribute(a: nat, x: nat, y: nat)
    ensures a * (x + y) == a * x + a * y
  {
  }

  lemma AttributedWithin(t: Tags, s: set<U64>)
    requires t.Keys <= s
    ensures SumOver(s, Weights(t)) == Attributed(t)
  {
    SumSupport(s, t.Keys, Weights(t));
  }

  lemma {:induction false} MassSumBound(ring: seq<Candidate>, s: set<U64>, scale: nat)
    requires Clusters(ring) <= s
    requires forall i :: 0 <= i < |ring| ==> Attributed(ring[i].tags) <= scale
    ensures SumOver(s, Masses(ring)) <= TotalValue(ring) * scale
  {
    if ring == [] {
      EmptyMasses(s);
    } else {
      var n := |ring| - 1;
      MassSumBound(ring[..n], s, scale);
      MassSumStep(ring, s);
      AttributedWithin(ring[n].tags, s);
      MassBelowStep(TotalValue(ring[..n]), ring[n].output.amount, Attributed(ring[n].tags),
                    SumOver(s, Masses(ring[..n])), scale);
    }
  }

  lemma {:induction false} EmptyMasses(s: set<U64>)
    ensures SumOver(s, Masses([])) == 0
    decreases s
  {
    if s != {} {
      var x :| x in s;
      SumPick(s, Masses([]), x);
      EmptyMasses(s - {x});
    }
  }

  /** The floored shares together account for no more than the mass. */
  lemma {:induction false} SharesBelowMasses(ring: seq<Candidate>, s: set<U64>)
    requires TotalValue(ring) > 0
    ensures SumOver(s, Shares(ring)) * TotalValue(ring) <= SumOver(s, Masses(ring))
    decreases s
  {
    if s != {} {
      var x :| x in s;
      SumPick(s, Shares(ring), x);
      SumPick(s, Masses(ring), x);
      SharesBelowMasses(ring, s - {x});
      DivBounds(Mass(ring, x), TotalValue(ring));
      SharesStep(Share(ring, x), SumOver(s - {x}, Shares(ring)), TotalValue(ring), Mass(ring, x),
                 SumOver(s - {x}, Masses(ring)));
    }
  }

  lemma SharesStep(q: nat, rest: nat, t: nat, m: nat, mrest: nat)
    requires q * t <= m && rest * t <= mrest
    ensures (q + rest) * t <= m + mrest
  {
    assert (q + rest) * t == q * t + rest * t;
  }

  /** If no member is attributed beyond the scale, neither is the centroid. */
  lemma CentroidWithinScale(ring: seq<Candidate>, scale: nat)
    requires TotalValue(ring) > 0
    requires forall i :: 0 <= i < |ring| ==> Attributed(ring[i].tags) <= scale
    ensures Attributed(CentroidOf(ring)) <= scale
  {
    ShareSumBound(ring, scale);
    CentroidWeights(ring);
  }

  lemma ShareSumBound(ring: seq<Candidate>, scale: nat)
    requires TotalValue(ring) > 0
    requires forall i :: 0 <= i < |ring| ==> Attributed(ring[i].tags) <= scale
    ensures SumOver(Clusters(ring), Shares(ring)) <= scale
  {
    var s := Clusters(ring);
    SharesBelowMasses(ring, s);
    MassSumBound(ring, s, scale);
    Cancel(SumOver(s, Shares(ring)), scale, TotalValue(ring));
  }

  lemma CentroidWeights(ring: seq<Candidate>)
    requires TotalValue(ring) > 0
    ensures Attributed(CentroidOf(ring)) == SumOver(Clusters(ring), Shares(ring))
  {
    var centroid := CentroidOf(ring);
    assert centroid.Keys == Clusters(ring);
    forall x | x in Clusters(ring) ensures Shares(ring)(x) == Weights(centroid)(x) {
    }
    SumCongruent(Clusters(ring), Shares(ring), Weights(centroid));
  }

  lemma Cancel(x: nat, y: nat, t: nat)
    requires t > 0 && x * t <= t * y
    ensures x <= y
  {
    MulLe(y + 1, x, t);
  }

  lemma {:induction false} SumCongruent(s: set<U64>, f: U64 -> nat, g: U64 -> nat)
    requires forall x :: x in s ==> f(x) == g(x)
    ensures SumOver(s, f) == SumOver(s, g)
    decreases s
  {
    if s != {} {
      var x :| x in s;
      SumPick(s, f, x);
      SumPick(s, g, x);
      SumCongruent(s - {x}, f, g);
    }
  }

  // ----- rings whose members agree -----

  lemma {:induction false} AgreeingMass(ring: seq<Candidate>, tags: Tags, c: U64)
    requires forall i :: 0 <= i < |ring| ==> ring[i].tags == tags
    ensures Mass(ring, c) == TotalValue(ring) * Weight(tags, c)
    ensures ring != [] ==> Clusters(ring) == tags.Keys
  {
    if ring != [] {
      var n := |ring| - 1;
      AgreeingMass(ring[..n], tags, c);
      Distribute(Weight(tags, c), TotalValue(ring[..n]), ring[n].output.amount);
    }
  }

  /** A ring whose members share one tag vector has exactly that vector as its centroid. */
  lemma AgreeingCentroid(ring: seq<Candidate>, tags: Tags)
    requires TotalValue(ring) > 0
    requires forall i :: 0 <= i < |ring| ==> ring[i].tags == tags
    ensures CentroidOf(ring) == tags
  {
    AgreeingMass(ring, tags, 0);
    forall c | c in tags ensures CentroidOf(ring)[c] == tags[c] {
      AgreeingShare(ring, tags, c);
    }
  }

  lemma AgreeingShare(ring: seq<Candidate>, tags: Tags, c: U64)
    requires TotalValue(ring) > 0
    requires forall i :: 0 <= i < |ring| ==> ring[i].tags == tags
    ensures Share(ring, c) == Weight(tags, c)
  {
    AgreeingMass(ring, tags, c);
    ExactQuotient(TotalValue(ring), Weight(tags, c));
  }

  lemma ExactQuotient(t: nat, w: nat)
    requires t > 0
    ensures (t * w) / t == w
  {
    assert t * w == w * t;
    DivIs(w * t, t, w);
  }

  // ----- the pre-flight check -----

  /** `as u32`: wraps. */
  function AsU32(n: int): U32 {
    n % (U32_MAX + 1)
  }

  method ComputeCentroid(ring: seq<Candidate>, totalValue: U64) returns (centroid: Tags)
    requires totalValue == TotalValue(ring) > 0
    ensures centroid == CentroidOf(ring)
  {
    var masses := AccumulateMasses(ring);
    centroid := map c | c in masses :: AsU32(masses[c] / totalValue);
    forall c | c in masses ensures centroid[c] == CentroidOf(ring)[c] {
      ShareFits(ring, c);
    }
  }

  method ValidateRing(ring: seq<Candidate>, outputTags: Tags, threshold: real, sqrt: nat -> real)
    returns (r: Result<real, real>)
    requires TotalValue(ring) <= U64_MAX
    ensures TotalValue(ring) == 0 ==> r == if outputTags == map[] then Ok(1.0) else Err(0.0)
    ensures TotalValue(ring) > 0 ==>
              var similarity := Cosine(CentroidOf(ring), outputTags, sqrt);
              r == if similarity >= threshold then Ok(similarity) else Err(similarity)
  {
    var totalValue := TotalValue(ring);
    if ring == [] || totalValue == 0 {
      return if outputTags == map[] then Ok(1.0) else Err(0.0);
    }
    var centroid := ComputeCentroid(ring, totalValue);
    var similarity := CosineSimilarity(centroid, outputTags, sqrt);
    if similarity >= threshold {
      return Ok(similarity);
    }
    return Err(similarity);
  }

  /** End to end: outputs tagged like an agreeing ring have similarity 1, and so pass every threshold up
      to 1, exactly when the tags are empty or of some weight. */
  lemma AgreeingRingPasses(ring: seq<Candidate>, tags: Tags, sqrt: nat -> real)
    requires ExactRoot(sqrt) && TotalValue(ring) > 0
    requires forall i :: 0 <= i < |ring| ==> ring[i].tags == tags
    ensures Cosine(CentroidOf(ring), tags, sqrt) == 1.0 <==> tags == map[] || Dot(tags, tags, tags.Keys) > 0
  {
    AgreeingCentroid(ring, tags);
    IdenticalIsOneIff(tags, sqrt);
  }
}
