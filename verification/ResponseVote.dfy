/**
 The cross-node response vote of `RpcPool::call_verified`.

 The count map is consumed in whatever order the hash map yields it, so the winner is any entry of
 greatest count.
 */
module ResponseVote {
  import opened Machine

  /** How many of `s` equal `v`. */
  function Count<T(==)>(s: seq<T>, v: T): nat {
    if s == [] then 0 else Count(s[..|s| - 1], v) + if s[|s| - 1] == v then 1 else 0
  }

  lemma {:induction false} CountPositive<T>(s: seq<T>, i: nat)
    requires i < |s|
    ensures Count(s, s[i]) >= 1
  {
    if i < |s| - 1 {
      CountPositive(s[..|s| - 1], i);
    }
  }

  lemma {:induction false} CountAbsent<T>(s: seq<T>, v: T)
    requires v !in s
    ensures Count(s, v) == 0
  {
    if s != [] {
      CountAbsent(s[..|s| - 1], v);
    }
  }

  lemma {:induction false} CountsBelowLength<T>(s: seq<T>, v: T, w: T)
    requires v != w
    ensures Count(s, v) + Count(s, w) <= |s|
  {
    if s != [] {
      CountsBelowLength(s[..|s| - 1], v, w);
    }
  }

  /** The nested counting loops: an entry for each response that some other one matches. */
  method CountMatches<T(==)>(results: seq<T>) returns (counts: map<nat, nat>)
    ensures forall i :: i in counts <==> 0 <= i < |results| && Count(results, results[i]) > 1
    ensures forall i :: i in counts ==> counts[i] == Count(results, results[i]) - 1
  {
    counts := map[];
    for i := 0 to |results|
      invariant forall k :: k in counts <==> 0 <= k < i && Count(results, results[k]) > 1
      invariant forall k :: k in counts ==> counts[k] == Count(results, results[k]) - 1
    {
      var n := CountOthers(results, i);
      if n > 0 {
        counts := counts[i := n];
      }
    }
  }

  method CountOthers<T(==)>(results: seq<T>, i: nat) returns (n: nat)
    requires i < |results|
    ensures n == Count(results, results[i]) - 1
  {
    n := 0;
    for j := 0 to |results|
      invariant n == Count(results[..j], results[i]) - if i < j then 1 else 0
    {
      assert results[..j + 1][..j] == results[..j];
      if i != j && results[i] == results[j] {
        n := n + 1;
      }
    }
    assert results[..|results|] == results;
  }

  datatype VoteError = NoNodesResponded

  /** `results` are the answers of the nodes that responded. */
  method CallVerified<T(==)>(results: seq<T>) returns (r: Result<T, VoteError>)
    ensures results == [] ==> r == Err(NoNodesResponded)
    ensures results != [] ==> r.Ok? && r.value in results && Plurality(results, r.value)
  {
    if results == [] {
      return Err(NoNodesResponded);
    }
    var counts := CountMatches(results);
    var best := 0;
    if counts != map[] {
      GreatestExists(counts, counts.Keys);
      best :| best in counts && forall k :: k in counts ==> counts[k] <= counts[best];
    }
    CountPositive(results, best);
    assert Plurality(results, results[best]);
    return Ok(results[best]);
  }

  /** No answer was given more often. */
  ghost predicate Plurality<T>(results: seq<T>, v: T) {
    forall i :: 0 <= i < |results| ==> Count(results, results[i]) <= Count(results, v)
  }

  lemma {:induction false} GreatestExists(counts: map<nat, nat>, keys: set<nat>)
    requires keys != {} && keys <= counts.Keys
    ensures exists best :: best in keys && forall k :: k in keys ==> counts[k] <= counts[best]
    decreases keys
  {
    var x :| x in keys;
    if keys == {x} {
      assert x in keys;
    } else {
      var rest := keys - {x};
      assert rest != {} by { assert keys == rest + {x}; }
      GreatestExists(counts, rest);
      var b :| b in rest && forall k :: k in rest ==> counts[k] <= counts[b];
      var best := if counts[x] <= counts[b] then b else x;
      assert best in keys && forall k :: k in keys ==> counts[k] <= counts[best] by {
        assert forall k :: k in keys ==> k == x || k in rest;
      }
    }
  }

  /** An answer held by a strict majority is the only possible outcome: a minority of lying nodes never
      wins. */
  lemma MajorityWins<T>(results: seq<T>, v: T, chosen: T)
    requires 2 * Count(results, v) > |results|
    requires Plurality(results, chosen)
    ensures chosen == v
  {
    if v !in results {
      CountAbsent(results, v);
    }
    if chosen != v {
      CountsBelowLength(results, v, chosen);
    }
  }
}
