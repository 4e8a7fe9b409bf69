/** Quorum thresholds for crash and Byzantine fault models: `QuorumConfig`. */
module Quorum {
  import opened Machine
  import opened Sequences

  datatype QuorumMode = Explicit | Recommended
  datatype FaultModel = Crash | Bft

  datatype QuorumConfig = QuorumConfig(mode: QuorumMode, faultModel: FaultModel, threshold: U32,
                                       members: seq<string>, minPeers: U32)

  const MIN_BFT_NODES: nat := 4

  /** The auto-derived threshold over `n` nodes, self included. */
  function Threshold(model: FaultModel, n: nat): int {
    match model
    case Crash => n / 2 + 1
    case Bft => n - Faults(n)
  }

  /** Byzantine members a 3f+1 quorum of `n` nodes tolerates. */
  function Faults(n: nat): nat {
    (if n == 0 then 0 else n - 1) / 3
  }

  function EffectiveThreshold(config: QuorumConfig, connected: nat): int {
    match config.mode
    case Explicit => config.threshold
    case Recommended => Threshold(config.faultModel, connected + 1)
  }

  function CanReachQuorum(config: QuorumConfig, connected: seq<string>): (bool, nat, int) {
    match config.mode
    case Explicit =>
      var size := |Filter(connected, (p: string) => p in config.members)| + 1;
      (size >= config.threshold, size, config.threshold)
    case Recommended =>
      if |connected| < config.minPeers then (false, |connected| + 1, config.minPeers + 1)
      else
        var threshold := EffectiveThreshold(config, |connected|);
        (|connected| + 1 >= threshold, |connected| + 1, threshold)
  }

  predicate IsBftFaultTolerant(config: QuorumConfig, nodes: nat) {
    config.mode.Explicit? || nodes >= MIN_BFT_NODES
  }

  // ----- counting -----

  lemma UnionSize<T>(a: set<T>, b: set<T>)
    ensures |a + b| + |a * b| == |a| + |b|
  {
    var both, rest := a * b, b - a;
    assert a + b == a + rest && b == both + rest;
    assert a !! rest && both !! rest;
  }

  /** Two subsets of `t` and more out of `n` members share at least `2t - n`. */
  lemma Overlap<T>(members: set<T>, a: set<T>, b: set<T>, t: int)
    requires a <= members && b <= members && |a| >= t && |b| >= t
    ensures |a * b| >= 2 * t - |members|
  {
    UnionSize(a, b);
    SubsetSize(a + b, members);
  }

  lemma {:induction false} SubsetOfSize<T>(s: set<T>, k: nat) returns (r: set<T>)
    requires k <= |s|
    ensures r <= s && |r| == k
  {
    if k == 0 {
      r := {};
    } else {
      var x :| x in s;
      var q := SubsetOfSize(s - {x}, k - 1);
      r := q + {x};
    }
  }

  /** Every two subsets of at least `t` members intersect. */
  ghost predicate AlwaysIntersect<T(!new)>(members: set<T>, t: int) {
    forall a: set<T>, b: set<T> :: a <= members && b <= members && |a| >= t && |b| >= t ==> a * b != {}
  }

  /** Exactly when: any two quorums of size `t` intersect iff `t` is more than half. */
  lemma IntersectIffMajority<T(!new)>(members: set<T>, t: int)
    requires 0 <= t <= |members|
    ensures AlwaysIntersect(members, t) <==> 2 * t > |members|
  {
    if 2 * t > |members| {
      forall a: set<T>, b: set<T> | a <= members && b <= members && |a| >= t && |b| >= t ensures a * b != {} {
        Overlap(members, a, b, t);
      }
    } else {
      var a := SubsetOfSize(members, t);
      SubsetSize(a, members);
      assert |members - a| == |members| - t by { assert members == a + (members - a); }
      var b := SubsetOfSize(members - a, t);
      assert a * b == {};
    }
  }

  // ----- crash faults -----

  /** The crash threshold is the least that makes every two quorums intersect. */
  lemma CrashThresholdIsLeastSafe<T(!new)>(members: set<T>, t: int)
    requires |members| >= 1 && 0 <= t <= |members|
    ensures AlwaysIntersect(members, t) <==> t >= Threshold(Crash, |members|)
  {
    IntersectIffMajority(members, t);
  }

  /** And it stays reachable after any minority of crashes, and no more. */
  lemma CrashLiveness<T>(members: set<T>, crashed: set<T>)
    requires |members| >= 1 && crashed <= members
    ensures |members - crashed| >= Threshold(Crash, |members|) <==> |crashed| <= (|members| - 1) / 2
  {
    assert members == crashed + (members - crashed);
  }

  // ----- Byzantine faults -----

  /** With at most f Byzantine members, every two quorums share an honest one: no two can decide
      differently on the word of liars alone. */
  lemma BftSafety<T>(members: set<T>, byzantine: set<T>, a: set<T>, b: set<T>)
    requires |members| >= 1 && a <= members && b <= members
    requires |a| >= Threshold(Bft, |members|) && |b| >= Threshold(Bft, |members|)
    requires |byzantine| <= Faults(|members|)
    ensures |a * b| >= Faults(|members|) + 1
    ensures (a * b) - byzantine != {}
  {
    Overlap(members, a, b, Threshold(Bft, |members|));
    var shared := a * b;
    assert shared == (shared - byzantine) + (shared * byzantine);
    SubsetSize(shared * byzantine, byzantine);
  }

  /** The quorum survives f silent members and no more. */
  lemma BftLiveness<T>(members: set<T>, silent: set<T>)
    requires |members| >= 1 && silent <= members
    ensures |members - silent| >= Threshold(Bft, |members|) <==> |silent| <= Faults(|members|)
  {
    assert members == silent + (members - silent);
  }

  /** Every two subsets of at least `t` members share more than `k`. */
  ghost predicate SafeAgainst<T(!new)>(members: set<T>, t: nat, k: nat) {
    forall a: set<T>, b: set<T> :: a <= members && b <= members && |a| >= t && |b| >= t ==> |a * b| > k
  }

  lemma LeastOverlap<T>(members: set<T>, t: nat) returns (a: set<T>, b: set<T>)
    requires t <= |members|
    ensures a <= members && b <= members && |a| == |b| == t
    ensures |a * b| == if 2 * t <= |members| then 0 else 2 * t - |members|
  {
    var n := |members|;
    a := SubsetOfSize(members, t);
    assert members == a + (members - a);
    var outside := Min(t, n - t);
    var c := SubsetOfSize(members - a, outside);
    var d := SubsetOfSize(a, t - outside);
    b := c + d;
    assert c * d == {};
    assert a * b == d;
  }

  /** f is as large as it can be: some threshold is both reachable without `k` members and safe against
      `k` of them lying exactly when k <= f. */
  lemma BftIsOptimal<T(!new)>(members: set<T>, k: nat)
    requires |members| >= 1
    ensures (exists t: nat :: t + k <= |members| && SafeAgainst(members, t, k)) <==> k <= Faults(|members|)
  {
    var n, f := |members|, Faults(|members|);
    if k <= f {
      var t := n - f;
      forall a: set<T>, b: set<T> | a <= members && b <= members && |a| >= t && |b| >= t ensures |a * b| > k {
        Overlap(members, a, b, t);
      }
      assert t + k <= n && SafeAgainst(members, t, k);
    } else {
      forall t: nat | t + k <= n ensures !SafeAgainst(members, t, k) {
        var a, b := LeastOverlap(members, t);
      }
    }
  }

  // ----- the configuration's answers -----

  /** In recommended mode the quorum is reachable exactly when enough peers are connected. */
  lemma RecommendedReachableIff(config: QuorumConfig, connected: seq<string>)
    requires config.mode.Recommended?
    ensures CanReachQuorum(config, connected).0 <==> |connected| >= config.minPeers
    ensures CanReachQuorum(config, connected).1 == |connected| + 1
  {
  }

  /** In explicit mode, over distinct peer ids, it counts the trusted members connected. */
  lemma ExplicitReachableIff(config: QuorumConfig, connected: seq<string>)
    requires config.mode.Explicit? && DistinctBy(connected, (p: string) => p)
    ensures var trusted := set p | p in connected && p in config.members;
            && CanReachQuorum(config, connected).1 == |trusted| + 1
            && (CanReachQuorum(config, connected).0 <==> |trusted| + 1 >= config.threshold)
  {
    var f := (p: string) => p in config.members;
    var id := (p: string) => p;
    FilterDistinct(connected, f, id);
    var kept := Filter(connected, f);
    ImageSize(kept, id);
    forall p | p in connected && p in config.members ensures p in Image(kept, id) {
      assert p in kept;
      var i :| 0 <= i < |kept| && kept[i] == p;
      assert id(kept[i]) == p;
    }
    forall i | 0 <= i < |kept| ensures kept[i] in connected && kept[i] in config.members {
      assert kept[i] in kept;
    }
    assert Image(kept, id) == set p | p in connected && p in config.members;
  }

  /** Four nodes are exactly what one Byzantine fault needs. */
  lemma BftNodesIff(config: QuorumConfig, nodes: nat)
    requires config.mode.Recommended?
    ensures IsBftFaultTolerant(config, nodes) <==> Faults(nodes) >= 1
  {
  }
}
