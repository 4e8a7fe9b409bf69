/** Largest-first coin selection: `TransactionBuilder::select_utxos`. */
module CoinSelection {
  import opened Machine
  import opened Sequences
  import opened Candidates

  datatype OwnedUtxo = OwnedUtxo(txHash: nat, outputIndex: U32, amount: U64, createdAt: U64,
                                 targetKey: Key, publicKey: Key, subaddress: U64)

  datatype SelectError = NoUtxos | InsufficientFunds(have: U64, need: U64)

  /** The value of the first `k` coins. */
  function TotalTo(utxos: seq<OwnedUtxo>, k: nat): nat
    requires k <= |utxos|
  {
    if k == 0 then 0 else TotalTo(utxos, k - 1) + utxos[k - 1].amount
  }

  function Total(utxos: seq<OwnedUtxo>): nat {
    TotalTo(utxos, |utxos|)
  }

  function NegatedAmount(u: OwnedUtxo): int {
    -(u.amount as int)
  }

  /** The wallet by descending amount, ties in wallet order. */
  function LargestFirst(utxos: seq<OwnedUtxo>): seq<OwnedUtxo> {
    Sort(utxos, NegatedAmount)
  }

  /** The true sum, saturated at the u64 maximum: what the running `total` holds. */
  function Saturated(n: nat): U64 {
    Min(n, U64_MAX)
  }

  /** A prefix of the largest-first order that reaches the target and falls short without its last pick. */
  ghost predicate LargestFirstChoice(utxos: seq<OwnedUtxo>, target: U64, selected: seq<OwnedUtxo>) {
    var sorted, k := LargestFirst(utxos), |selected|;
    && k <= |sorted|
    && selected == sorted[..k]
    && TotalTo(sorted, k) >= target
    && (k > 0 ==> TotalTo(sorted, k - 1) < target)
  }

  /** The accumulation loop: coins in order until the saturating total reaches the target. */
  method TakeUntil(sorted: seq<OwnedUtxo>, target: U64) returns (k: nat, total: U64)
    ensures k <= |sorted| && total == Saturated(TotalTo(sorted, k))
    ensures total < target ==> k == |sorted|
    ensures k > 0 ==> TotalTo(sorted, k - 1) < target
  {
    k, total := 0, 0;
    while k < |sorted| && total < target
      invariant 0 <= k <= |sorted| && total == Saturated(TotalTo(sorted, k))
      invariant k > 0 ==> TotalTo(sorted, k - 1) < target
    {
      total := SatAdd(total, sorted[k].amount);
      k := k + 1;
    }
  }

  method SelectUtxos(utxos: seq<OwnedUtxo>, target: U64) returns (r: Result<(seq<OwnedUtxo>, U64), SelectError>)
    ensures if utxos == [] then r == Err(NoUtxos)
            else if Total(utxos) < target then r == Err(InsufficientFunds(Total(utxos), target))
            else
              && r.Ok?
              && LargestFirstChoice(utxos, target, r.value.0)
              && r.value.1 == Saturated(Total(r.value.0))
  {
    if utxos == [] {
      return Err(NoUtxos);
    }
    var sorted := LargestFirst(utxos);
    SortPermutes(utxos, NegatedAmount);
    TotalPermuted(utxos, sorted);
    var k, total := TakeUntil(sorted, target);
    TotalToMonotone(sorted, k, |sorted|);
    if total < target {
      return Err(InsufficientFunds(total, target));
    }
    PrefixIsTotalTo(sorted, k);
    return Ok((sorted[..k], total));
  }

  lemma {:induction false} TotalToMonotone(s: seq<OwnedUtxo>, j: nat, k: nat)
    requires j <= k <= |s|
    ensures TotalTo(s, j) <= TotalTo(s, k)
  {
    if j < k {
      TotalToMonotone(s, j, k - 1);
    }
  }

  lemma {:induction false} TotalToCongruent(s: seq<OwnedUtxo>, t: seq<OwnedUtxo>, k: nat)
    requires k <= |s| && k <= |t| && forall i :: 0 <= i < k ==> s[i] == t[i]
    ensures TotalTo(s, k) == TotalTo(t, k)
  {
    if k > 0 {
      TotalToCongruent(s, t, k - 1);
    }
  }

  lemma PrefixIsTotalTo(s: seq<OwnedUtxo>, k: nat)
    requires k <= |s|
    ensures Total(s[..k]) == TotalTo(s, k)
  {
    TotalToCongruent(s[..k], s, k);
  }

  // ----- totals of rearranged wallets -----

  lemma {:induction false} TotalConcat(a: seq<OwnedUtxo>, b: seq<OwnedUtxo>, k: nat)
    requires k <= |b|
    ensures TotalTo(a + b, |a| + k) == Total(a) + TotalTo(b, k)
  {
    if k == 0 {
      TotalToCongruent(a + b, a, |a|);
    } else {
      TotalConcat(a, b, k - 1);
    }
  }

  lemma SplitTotal(s: seq<OwnedUtxo>, i: nat)
    requires i <= |s|
    ensures Total(s) == Total(s[..i]) + Total(s[i..])
  {
    assert s[..i] + s[i..] == s;
    TotalConcat(s[..i], s[i..], |s| - i);
  }

  function RemoveAt(s: seq<OwnedUtxo>, i: nat): seq<OwnedUtxo>
    requires i < |s|
  {
    s[..i] + s[i + 1..]
  }

  lemma TotalSingleton(u: OwnedUtxo)
    ensures Total([u]) == u.amount
  {
    assert TotalTo([u], 1) == TotalTo([u], 0) + u.amount;
  }

  lemma RemoveAtMultiset(s: seq<OwnedUtxo>, i: nat)
    requires i < |s|
    ensures multiset(RemoveAt(s, i)) == multiset(s) - multiset{s[i]}
  {
    assert s == s[..i] + [s[i]] + s[i + 1..];
  }

  lemma TotalRemoveAt(s: seq<OwnedUtxo>, i: nat)
    requires i < |s|
    ensures Total(s) == Total(RemoveAt(s, i)) + s[i].amount
  {
    SplitTotal(s, i);
    SplitTotal(s[i..], 1);
    assert s[i..][..1] == [s[i]] && s[i..][1..] == s[i + 1..];
    TotalConcat(s[..i], s[i + 1..], |s| - i - 1);
    TotalSingleton(s[i]);
  }

  lemma {:induction false} TotalPermuted(a: seq<OwnedUtxo>, b: seq<OwnedUtxo>)
    requires multiset(a) == multiset(b)
    ensures Total(a) == Total(b)
    decreases |a|
  {
    assert |multiset(a)| == |multiset(b)|;
    if a != [] {
      assert a[0] in multiset(b);
      var i :| 0 <= i < |b| && b[i] == a[0];
      TotalRemoveAt(a, 0);
      TotalRemoveAt(b, i);
      RemoveAtMultiset(a, 0);
      RemoveAtMultiset(b, i);
      TotalPermuted(RemoveAt(a, 0), RemoveAt(b, i));
    }
  }

  // ----- the exchange argument -----

  /** No `k` coins of the wallet are worth more than its `k` largest. */
  lemma {:induction false} LargestPrefixIsBest(sorted: seq<OwnedUtxo>, other: seq<OwnedUtxo>)
    requires SortedBy(sorted, NegatedAmount)
    requires multiset(other) <= multiset(sorted)
    ensures |other| <= |sorted| && Total(other) <= TotalTo(sorted, |other|)
    decreases |sorted|
  {
    if other != [] {
      var j := Exchange(sorted, other);
      var rest := RemoveAt(other, j);
      TotalRemoveAt(other, j);
      RestFits(sorted, other, j);
      TailSorted(sorted);
      LargestPrefixIsBest(sorted[1..], rest);
      HeadTotal(sorted, |other|);
    }
  }

  lemma TailSorted(sorted: seq<OwnedUtxo>)
    requires sorted != [] && SortedBy(sorted, NegatedAmount)
    ensures SortedBy(sorted[1..], NegatedAmount)
  {
    forall i, k | 0 <= i <= k < |sorted| - 1 ensures NegatedAmount(sorted[1..][i]) <= NegatedAmount(sorted[1..][k]) {
      assert sorted[1..][i] == sorted[i + 1] && sorted[1..][k] == sorted[k + 1];
    }
  }

  /** A coin of `other` to give up for the largest: the largest itself if it is there, else any. */
  lemma Exchange(sorted: seq<OwnedUtxo>, other: seq<OwnedUtxo>) returns (j: nat)
    requires SortedBy(sorted, NegatedAmount) && other != [] && multiset(other) <= multiset(sorted)
    ensures sorted != [] && j < |other| && other[j].amount <= sorted[0].amount
    ensures sorted[0] in other ==> other[j] == sorted[0]
  {
    assert other[0] in multiset(other);
    assert other[0] in sorted;
    if sorted[0] in other {
      j :| 0 <= j < |other| && other[j] == sorted[0];
    } else {
      j := 0;
    }
    assert other[j] in multiset(other);
    assert other[j] in sorted;
    var k :| 0 <= k < |sorted| && sorted[k] == other[j];
    assert NegatedAmount(sorted[0]) <= NegatedAmount(sorted[k]);
  }

  lemma RestFits(sorted: seq<OwnedUtxo>, other: seq<OwnedUtxo>, j: nat)
    requires sorted != [] && j < |other| && multiset(other) <= multiset(sorted)
    requires sorted[0] in other ==> other[j] == sorted[0]
    ensures multiset(RemoveAt(other, j)) <= multiset(sorted[1..])
  {
    RemoveAtMultiset(other, j);
    RemoveAtMultiset(sorted, 0);
    assert sorted[1..] == RemoveAt(sorted, 0);
  }

  lemma {:induction false} HeadTotal(s: seq<OwnedUtxo>, k: nat)
    requires 0 < k <= |s|
    ensures TotalTo(s, k) == s[0].amount + TotalTo(s[1..], k - 1)
  {
    if k > 1 {
      HeadTotal(s, k - 1);
    }
  }

  /** Cardinality optimality: no choice of fewer coins from the wallet reaches the target. */
  lemma NoSmallerSelection(utxos: seq<OwnedUtxo>, target: U64, selected: seq<OwnedUtxo>, other: seq<OwnedUtxo>)
    requires LargestFirstChoice(utxos, target, selected)
    requires multiset(other) <= multiset(utxos) && |other| < |selected|
    ensures Total(other) < target
  {
    var sorted := LargestFirst(utxos);
    SortSorted(utxos, NegatedAmount);
    SortPermutes(utxos, NegatedAmount);
    LargestPrefixIsBest(sorted, other);
    TotalToMonotone(sorted, |other|, |selected| - 1);
  }

  /** The selection spends coins the wallet holds, each at most as often as it holds it. */
  lemma SelectionIsOwned(utxos: seq<OwnedUtxo>, target: U64, selected: seq<OwnedUtxo>)
    requires LargestFirstChoice(utxos, target, selected)
    ensures multiset(selected) <= multiset(utxos)
  {
    var sorted := LargestFirst(utxos);
    SortPermutes(utxos, NegatedAmount);
    assert sorted == sorted[..|selected|] + sorted[|selected|..];
  }
}
