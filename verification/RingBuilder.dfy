/** Ring-member sourcing over RPC: `fetch_decoy_ring_members`. */
module RingBuilder {
  import opened Machine
  import opened Sequences
  import opened Candidates
  import opened ChainQuery

  /** A ring member; its commitment is a function of the amount.  `createdAt` is the height of the block
      it was read from: the model keeps it so that contracts can speak of a decoy's age. */
  datatype RingMember = RingMember(targetKey: Key, publicKey: Key, amount: U64, createdAt: U64)

  datatype FetchError = TooYoung(age: U64) | NotEnoughDecoys(required: nat, found: nat)

  function MemberKey(m: RingMember): Key {
    m.targetKey
  }

  function KeyOrder(m: RingMember): int {
    m.targetKey
  }

  /** `rpc_output_to_ring_member` and the exclusion test: malformed outputs and own inputs are skipped. */
  function Usable(out: RpcOutput, height: U64, exclude: seq<Key>): seq<RingMember> {
    match (out.targetKey, out.publicKey, out.amount)
    case (Some(target), Some(public), Some(amount)) =>
      if target in exclude then [] else [RingMember(target, public, amount, height)]
    case _ => []
  }

  function UsableIn(outputs: seq<RpcOutput>, height: U64, exclude: seq<Key>): seq<RingMember> {
    if outputs == [] then [] else Usable(outputs[0], height, exclude) + UsableIn(outputs[1..], height, exclude)
  }

  function RawPool(blocks: seq<BlockOutputs>, exclude: seq<Key>): seq<RingMember> {
    if blocks == [] then []
    else UsableIn(blocks[0].outputs, blocks[0].height, exclude) + RawPool(blocks[1..], exclude)
  }

  method CollectPool(blocks: seq<BlockOutputs>, exclude: seq<Key>) returns (pool: seq<RingMember>)
    ensures pool == RawPool(blocks, exclude)
  {
    pool := [];
    for i := 0 to |blocks|
      invariant pool + RawPool(blocks[i..], exclude) == RawPool(blocks, exclude)
    {
      var found := CollectBlock(blocks[i], exclude);
      Assoc(pool, found, RawPool(blocks[i..][1..], exclude));
      assert blocks[i..][1..] == blocks[i + 1..];
      pool := pool + found;
    }
  }

  method CollectBlock(block: BlockOutputs, exclude: seq<Key>) returns (pool: seq<RingMember>)
    ensures pool == UsableIn(block.outputs, block.height, exclude)
  {
    pool := [];
    for j := 0 to |block.outputs|
      invariant pool + UsableIn(block.outputs[j..], block.height, exclude)
                == UsableIn(block.outputs, block.height, exclude)
    {
      var found := Usable(block.outputs[j], block.height, exclude);
      Assoc(pool, found, UsableIn(block.outputs[j..][1..], block.height, exclude));
      assert block.outputs[j..][1..] == block.outputs[j + 1..];
      pool := pool + found;
    }
  }

  /** `dedup_by` on equal neighbours: the first of each run stays. */
  function Dedup(s: seq<RingMember>): seq<RingMember> {
    if |s| <= 1 then s
    else if s[|s| - 1].targetKey == s[|s| - 2].targetKey then Dedup(s[..|s| - 1])
    else Dedup(s[..|s| - 1]) + [s[|s| - 1]]
  }

  /** The height window of the age band: [start, end], from the oldest to the youngest allowed. */
  function Window(realAge: U64, currentHeight: U64): (U64, U64) {
    var (minAge, maxAge) := AgeSimilarityBand(realAge);
    (SatSub(currentHeight, maxAge), SatSub(currentHeight, minAge))
  }

  /** What the wallet's query returns, before sorting. */
  function Fetched(chain: Chain, convention: RangeEnd, realAge: U64, currentHeight: U64,
                   exclude: seq<Key>): seq<RingMember> {
    var (start, end) := Window(realAge, currentHeight);
    RawPool(GetOutputs(chain, start, SatAdd(end, 1), convention), exclude)
  }

  /** The pool the ring is drawn from. */
  function DecoyPool(chain: Chain, convention: RangeEnd, realAge: U64, currentHeight: U64,
                     exclude: seq<Key>): seq<RingMember> {
    Dedup(Sort(Fetched(chain, convention, realAge, currentHeight, exclude), KeyOrder))
  }

  /** `count` members of the pool, each used at most once, whatever the shuffle. */
  ghost predicate DrawnFromPool(pool: seq<RingMember>, count: nat, decoys: seq<RingMember>) {
    |decoys| == count && multiset(decoys) <= multiset(pool)
  }

  method FetchDecoyRingMembers(chain: Chain, convention: RangeEnd, realAge: U64, currentHeight: U64, exclude: seq<Key>,
                               count: nat)
    returns (r: Result<seq<RingMember>, FetchError>)
    ensures var pool := DecoyPool(chain, convention, realAge, currentHeight, exclude);
            if realAge < MIN_DECOY_AGE_BLOCKS then r == Err(TooYoung(realAge))
            else if |pool| < count then r == Err(NotEnoughDecoys(count, |pool|))
            else r.Ok? && DrawnFromPool(pool, count, r.value)
  {
    if realAge < MIN_DECOY_AGE_BLOCKS {
      return Err(TooYoung(realAge));
    }
    var (startHeight, endHeight) := Window(realAge, currentHeight);
    var blocks := GetOutputs(chain, startHeight, SatAdd(endHeight, 1), convention);
    var pool := CollectPool(blocks, exclude);
    pool := Dedup(Sort(pool, KeyOrder));
    if |pool| < count {
      return Err(NotEnoughDecoys(count, |pool|));
    }
    var shuffled: seq<RingMember> :| multiset(shuffled) == multiset(pool);
    PrefixOfShuffle(pool, shuffled, count);
    return Ok(shuffled[..count]);
  }

  lemma PrefixOfShuffle(pool: seq<RingMember>, shuffled: seq<RingMember>, count: nat)
    requires multiset(shuffled) == multiset(pool) && count <= |pool|
    ensures |shuffled| == |pool| && DrawnFromPool(pool, count, shuffled[..count])
  {
    assert |multiset(shuffled)| == |multiset(pool)|;
    assert shuffled == shuffled[..count] + shuffled[count..];
  }

  // ----- distinctness -----

  lemma {:induction false} DedupMembers(s: seq<RingMember>, m: RingMember)
    ensures m in Dedup(s) ==> m in s
  {
    if |s| > 1 {
      DedupMembers(s[..|s| - 1], m);
    }
  }

  /** Sorted, then deduplicated: strictly increasing keys. */
  lemma {:induction false} DedupIncreasing(s: seq<RingMember>)
    requires SortedBy(s, KeyOrder)
    ensures forall i, j :: 0 <= i < j < |Dedup(s)| ==> Dedup(s)[i].targetKey < Dedup(s)[j].targetKey
    ensures s != [] ==> Dedup(s) != [] && Dedup(s)[|Dedup(s)| - 1].targetKey == s[|s| - 1].targetKey
  {
    if |s| > 1 {
      var n := |s| - 1;
      DedupIncreasing(s[..n]);
      assert KeyOrder(s[n - 1]) <= KeyOrder(s[n]);
    }
  }

  /** Any draw from the pool has pairwise distinct keys, and none of the excluded ones. */
  lemma DecoysAreDistinct(chain: Chain, convention: RangeEnd, realAge: U64, currentHeight: U64, exclude: seq<Key>,
                          count: nat, decoys: seq<RingMember>)
    requires DrawnFromPool(DecoyPool(chain, convention, realAge, currentHeight, exclude), count, decoys)
    ensures DistinctBy(decoys, MemberKey)
    ensures forall m :: m in decoys ==> m.targetKey !in exclude
  {
    var raw := Fetched(chain, convention, realAge, currentHeight, exclude);
    var sorted := Sort(raw, KeyOrder);
    var pool := Dedup(sorted);
    SortSorted(raw, KeyOrder);
    SortPermutes(raw, KeyOrder);
    DedupIncreasing(sorted);
    DistinctDraw(pool, decoys);
    forall m | m in decoys ensures m.targetKey !in exclude {
      assert m in multiset(decoys);
      DedupMembers(sorted, m);
      assert m in multiset(sorted);
      var (start, end) := Window(realAge, currentHeight);
      RawPoolMembers(GetOutputs(chain, start, SatAdd(end, 1), convention), exclude, m);
    }
  }

  lemma DistinctDraw(pool: seq<RingMember>, decoys: seq<RingMember>)
    requires forall i, j :: 0 <= i < j < |pool| ==> pool[i].targetKey < pool[j].targetKey
    requires multiset(decoys) <= multiset(pool)
    ensures DistinctBy(decoys, MemberKey)
  {
    forall i, j | 0 <= i < j < |decoys| ensures MemberKey(decoys[i]) != MemberKey(decoys[j]) {
      TwoOfDraw(pool, decoys, i, j);
    }
  }

  lemma TwoOfDraw(pool: seq<RingMember>, decoys: seq<RingMember>, i: nat, j: nat)
    requires forall i, j :: 0 <= i < j < |pool| ==> pool[i].targetKey < pool[j].targetKey
    requires multiset(decoys) <= multiset(pool) && i < j < |decoys|
    ensures decoys[i].targetKey != decoys[j].targetKey
  {
    var a, b := decoys[i], decoys[j];
    assert a in multiset(decoys) && b in multiset(decoys);
    assert a in pool && b in pool;
    assert decoys == decoys[..j] + decoys[j..];
    assert decoys[..j][i] == a && decoys[j..][0] == b;
    assert multiset(decoys[..j])[a] >= 1 && multiset(decoys[j..])[b] >= 1;
    SinglyHeld(pool, a);
  }

  lemma {:induction false} SinglyHeld(pool: seq<RingMember>, m: RingMember)
    requires forall i, j :: 0 <= i < j < |pool| ==> pool[i].targetKey < pool[j].targetKey
    ensures multiset(pool)[m] <= 1
  {
    if pool != [] {
      var n := |pool| - 1;
      SinglyHeld(pool[..n], m);
      assert pool == pool[..n] + [pool[n]];
    }
  }

  lemma {:induction false} UsableInMembers(outputs: seq<RpcOutput>, height: U64, exclude: seq<Key>, m: RingMember)
    requires m in UsableIn(outputs, height, exclude)
    ensures m.targetKey !in exclude && m.createdAt == height
  {
    if m !in Usable(outputs[0], height, exclude) {
      UsableInMembers(outputs[1..], height, exclude, m);
    }
  }

  lemma {:induction false} RawPoolMembers(blocks: seq<BlockOutputs>, exclude: seq<Key>, m: RingMember)
    requires m in RawPool(blocks, exclude)
    ensures m.targetKey !in exclude
    ensures exists i :: 0 <= i < |blocks| && blocks[i].height == m.createdAt
  {
    if m in UsableIn(blocks[0].outputs, blocks[0].height, exclude) {
      UsableInMembers(blocks[0].outputs, blocks[0].height, exclude, m);
    } else {
      RawPoolMembers(blocks[1..], exclude, m);
      var i :| 0 <= i < |blocks[1..]| && blocks[1..][i].height == m.createdAt;
      assert blocks[i + 1] == blocks[1..][i];
    }
  }

  // ----- which copy of a repeated key survives -----

  lemma {:induction false} DedupKeepsFirst(s: seq<RingMember>, m: RingMember)
    requires SortedBy(s, KeyOrder) && m in Dedup(s)
    ensures var run := Filter(s, HasKey(KeyOrder, m.targetKey));
            run != [] && m == run[0]
  {
    var p := HasKey(KeyOrder, m.targetKey);
    if |s| == 1 {
      assert Filter(s, p) == [m];
    } else {
      var n := |s| - 1;
      assert s == s[..n] + [s[n]];
      FilterConcat(s[..n], [s[n]], p);
      if m in Dedup(s[..n]) {
        DedupKeepsFirst(s[..n], m);
      } else {
        assert m == s[n];
        forall x | x in s[..n] ensures !p(x) {
          var i :| 0 <= i < n && s[i] == x;
          assert KeyOrder(s[i]) <= KeyOrder(s[n - 1]) <= KeyOrder(s[n]);
        }
        FilterNone(s[..n], p);
      }
    }
  }

  /** The pool keeps, of each key, the member fetched first: the one at the lowest height. */
  lemma PoolKeepsFirstFetched(raw: seq<RingMember>, m: RingMember)
    requires m in Dedup(Sort(raw, KeyOrder))
    ensures var run := Filter(raw, HasKey(KeyOrder, m.targetKey));
            run != [] && m == run[0]
  {
    SortSorted(raw, KeyOrder);
    DedupKeepsFirst(Sort(raw, KeyOrder), m);
    SortKeepsRuns(raw, KeyOrder, m.targetKey);
  }

  lemma {:induction false} DedupKeepsKeys(s: seq<RingMember>, i: nat)
    requires i < |s|
    ensures exists m :: m in Dedup(s) && m.targetKey == s[i].targetKey
  {
    if |s| == 1 {
      assert s[0] in Dedup(s);
    } else {
      var n := |s| - 1;
      if i < n {
        DedupKeepsKeys(s[..n], i);
        var m :| m in Dedup(s[..n]) && m.targetKey == s[..n][i].targetKey;
        assert m in Dedup(s);
      } else if s[n].targetKey == s[n - 1].targetKey {
        DedupKeepsKeys(s[..n], n - 1);
        var m :| m in Dedup(s[..n]) && m.targetKey == s[..n][n - 1].targetKey;
        assert m in Dedup(s);
      } else {
        assert s[n] in Dedup(s);
      }
    }
  }

  lemma PoolHasEveryKey(raw: seq<RingMember>, b: RingMember)
    requires b in raw
    ensures exists m :: m in Dedup(Sort(raw, KeyOrder)) && m.targetKey == b.targetKey && m in raw
  {
    var sorted := Sort(raw, KeyOrder);
    SortPermutes(raw, KeyOrder);
    assert b in multiset(sorted);
    var i :| 0 <= i < |sorted| && sorted[i] == b;
    DedupKeepsKeys(sorted, i);
    var m :| m in Dedup(sorted) && m.targetKey == b.targetKey;
    DedupMembers(sorted, m);
    assert m in multiset(sorted);
  }

  /** Of two fetched parts, a member of the second reaches the pool exactly when its key is new. */
  lemma SecondPartReachesPool(a: seq<RingMember>, b: seq<RingMember>)
    requires forall x :: x in a ==> x !in b
    ensures (exists m :: m in Dedup(Sort(a + b, KeyOrder)) && m in b)
            <==> (exists x :: x in b && forall y :: y in a ==> y.targetKey != x.targetKey)
  {
    var pool := Dedup(Sort(a + b, KeyOrder));
    if exists m :: m in pool && m in b {
      var m :| m in pool && m in b;
      var p := HasKey(KeyOrder, m.targetKey);
      PoolKeepsFirstFetched(a + b, m);
      FilterConcat(a, b, p);
      FirstOfConcat(Filter(a, p), Filter(b, p), m);
      forall y | y in a ensures y.targetKey != m.targetKey {
        assert y in Filter(a, p) <==> p(y);
      }
    }
    if exists x :: x in b && forall y :: y in a ==> y.targetKey != x.targetKey {
      var x :| x in b && forall y :: y in a ==> y.targetKey != x.targetKey;
      assert x in a + b;
      PoolHasEveryKey(a + b, x);
    }
  }

  lemma FirstOfConcat(a: seq<RingMember>, b: seq<RingMember>, m: RingMember)
    requires a + b != [] && (a + b)[0] == m
    ensures a != [] ==> m in a
  {
    assert a != [] ==> (a + b)[0] == a[0];
  }

  // ----- ages -----

  /** For a confirmed input no younger than the chain allows, the window is exactly the age band. */
  lemma WindowIsBand(realAge: U64, currentHeight: U64, h: U64)
    requires MIN_DECOY_AGE_BLOCKS <= realAge <= currentHeight && h <= currentHeight
    ensures var (start, end) := Window(realAge, currentHeight);
            && (start <= h <= end <==> InAgeBand(currentHeight - h, realAge))
            && end + MIN_DECOY_AGE_BLOCKS <= currentHeight && start <= end
            && AgeSimilarityBand(realAge).0 == currentHeight - end
  {
    var (minAge, maxAge) := AgeSimilarityBand(realAge);
    AgeBandMeaning(realAge, realAge);
  }

  lemma RawPoolHeights(chain: Chain, a: nat, b: nat, exclude: seq<Key>, m: RingMember)
    requires m in RawPool(Blocks(chain, a, b), exclude)
    ensures a <= m.createdAt < b
  {
    RawPoolMembers(Blocks(chain, a, b), exclude, m);
    var i :| 0 <= i < |Blocks(chain, a, b)| && Blocks(chain, a, b)[i].height == m.createdAt;
    BlocksHeights(chain, a, b, i);
  }

  lemma PoolIsFetched(chain: Chain, convention: RangeEnd, realAge: U64, currentHeight: U64, exclude: seq<Key>,
                      m: RingMember)
    requires m in DecoyPool(chain, convention, realAge, currentHeight, exclude)
    ensures m in Fetched(chain, convention, realAge, currentHeight, exclude)
  {
    var raw := Fetched(chain, convention, realAge, currentHeight, exclude);
    var sorted := Sort(raw, KeyOrder);
    SortPermutes(raw, KeyOrder);
    DedupMembers(sorted, m);
    assert m in multiset(sorted);
  }

  /** Against a node that answers half-open ranges every decoy's age lies in the band. */
  lemma HalfOpenDecoysInBand(chain: Chain, realAge: U64, currentHeight: U64, exclude: seq<Key>, m: RingMember)
    requires MIN_DECOY_AGE_BLOCKS <= realAge <= currentHeight
    requires m in DecoyPool(chain, HalfOpen, realAge, currentHeight, exclude)
    ensures AgeInBand(m, realAge, currentHeight)
  {
    var (start, end) := Window(realAge, currentHeight);
    PoolIsFetched(chain, HalfOpen, realAge, currentHeight, exclude, m);
    RawPoolHeights(chain, start, SatAdd(end, 1), exclude, m);
    WindowIsBand(realAge, currentHeight, m.createdAt);
  }

  /** What the wallet asks for, and the one younger height the node's inclusive answer adds. */
  function InWindow(chain: Chain, realAge: U64, currentHeight: U64, exclude: seq<Key>): seq<RingMember> {
    var (start, end) := Window(realAge, currentHeight);
    RawPool(Blocks(chain, start, end + 1), exclude)
  }

  function Strays(chain: Chain, realAge: U64, currentHeight: U64, exclude: seq<Key>): seq<RingMember> {
    var (start, end) := Window(realAge, currentHeight);
    RawPool(Blocks(chain, end + 1, end + 2), exclude)
  }

  lemma {:induction false} RawPoolConcat(a: seq<BlockOutputs>, b: seq<BlockOutputs>, exclude: seq<Key>)
    ensures RawPool(a + b, exclude) == RawPool(a, exclude) + RawPool(b, exclude)
  {
    if a == [] {
      assert a + b == b;
    } else {
      RawPoolConcat(a[1..], b, exclude);
      assert (a + b)[1..] == a[1..] + b;
      Assoc(UsableIn(a[0].outputs, a[0].height, exclude), RawPool(a[1..], exclude), RawPool(b, exclude));
    }
  }

  lemma InclusiveFetch(chain: Chain, realAge: U64, currentHeight: U64, exclude: seq<Key>)
    requires MIN_DECOY_AGE_BLOCKS <= realAge <= currentHeight
    ensures Fetched(chain, Inclusive, realAge, currentHeight, exclude)
            == InWindow(chain, realAge, currentHeight, exclude) + Strays(chain, realAge, currentHeight, exclude)
  {
    var (start, end) := Window(realAge, currentHeight);
    WindowIsBand(realAge, currentHeight, currentHeight);
    BlocksSplit(chain, start, end + 1, end + 2);
    RawPoolConcat(Blocks(chain, start, end + 1), Blocks(chain, end + 1, end + 2), exclude);
  }

  /** Against the node as it is, a decoy can be one block too young, below the band and, for an input at
      the confirmation floor, below ten confirmations.  Exactly when: some usable output one height past
      the window carries a key that no usable output in the window carries. */
  lemma InclusiveDecoysStrayIff(chain: Chain, realAge: U64, currentHeight: U64, exclude: seq<Key>)
    requires MIN_DECOY_AGE_BLOCKS <= realAge <= currentHeight
    ensures (exists m :: m in DecoyPool(chain, Inclusive, realAge, currentHeight, exclude)
                         && !AgeInBand(m, realAge, currentHeight))
            <==> (exists x :: x in Strays(chain, realAge, currentHeight, exclude)
                              && forall y :: y in InWindow(chain, realAge, currentHeight, exclude) ==>
                                   y.targetKey != x.targetKey)
  {
    var a, b := InWindow(chain, realAge, currentHeight, exclude), Strays(chain, realAge, currentHeight, exclude);
    var pool := DecoyPool(chain, Inclusive, realAge, currentHeight, exclude);
    forall x ensures x in a ==> x !in b && AgeInBand(x, realAge, currentHeight) {
      WindowMember(chain, realAge, currentHeight, exclude, x);
    }
    forall x ensures x in b ==> !AgeInBand(x, realAge, currentHeight) {
      WindowMember(chain, realAge, currentHeight, exclude, x);
    }
    InclusiveFetch(chain, realAge, currentHeight, exclude);
    SecondPartReachesPool(a, b);
    forall m | m in pool ensures m in a || m in b {
      PoolIsFetched(chain, Inclusive, realAge, currentHeight, exclude, m);
    }
    assert forall m :: m in pool ==> (m in b <==> !AgeInBand(m, realAge, currentHeight));
  }

  predicate AgeInBand(m: RingMember, realAge: U64, currentHeight: U64) {
    m.createdAt <= currentHeight && InAgeBand(currentHeight - m.createdAt, realAge)
  }

  lemma WindowMember(chain: Chain, realAge: U64, currentHeight: U64, exclude: seq<Key>, x: RingMember)
    requires MIN_DECOY_AGE_BLOCKS <= realAge <= currentHeight
    ensures x in InWindow(chain, realAge, currentHeight, exclude) ==> AgeInBand(x, realAge, currentHeight)
    ensures x in Strays(chain, realAge, currentHeight, exclude) ==> !AgeInBand(x, realAge, currentHeight)
  {
    var (start, end) := Window(realAge, currentHeight);
    if x in InWindow(chain, realAge, currentHeight, exclude) {
      RawPoolHeights(chain, start, end + 1, exclude, x);
      WindowIsBand(realAge, currentHeight, x.createdAt);
    }
    if x in Strays(chain, realAge, currentHeight, exclude) {
      RawPoolHeights(chain, end + 1, end + 2, exclude, x);
      WindowIsBand(realAge, currentHeight, x.createdAt);
    }
  }

  /** And never worse than one block: every decoy's age lies in the band or just below it. */
  lemma InclusiveDecoysNearBand(chain: Chain, realAge: U64, currentHeight: U64, exclude: seq<Key>, m: RingMember)
    requires MIN_DECOY_AGE_BLOCKS <= realAge <= currentHeight
    requires m in DecoyPool(chain, Inclusive, realAge, currentHeight, exclude)
    ensures m.createdAt <= currentHeight
    ensures var age := currentHeight - m.createdAt;
            InAgeBand(age, realAge) || age + 1 == AgeSimilarityBand(realAge).0
  {
    var (start, end) := Window(realAge, currentHeight);
    PoolIsFetched(chain, Inclusive, realAge, currentHeight, exclude, m);
    WindowIsBand(realAge, currentHeight, currentHeight);
    RawPoolHeights(chain, start, end + 2, exclude, m);
    WindowIsBand(realAge, currentHeight, m.createdAt);
  }

  const FRESH_OUTPUT: RpcOutput := RpcOutput(Some(1), 0, Some(7), Some(8), Some(9), None)

  /** A chain whose only output is nine blocks deep: an input of age ten is offered it as a decoy,
      although decoys must be ten blocks deep. */
  lemma UnconfirmedDecoyOffered()
    ensures exists m :: m in DecoyPool(map[91 := [FRESH_OUTPUT]], Inclusive, 10, 100, [])
                        && 100 - m.createdAt < MIN_DECOY_AGE_BLOCKS
  {
    var chain: Chain := map[91 := [FRESH_OUTPUT]];
    var young := RingMember(7, 8, 9, 91);
    assert Window(10, 100) == (89, 90);
    assert Blocks(chain, 89, 91) == [];
    assert Blocks(chain, 92, 92) == [];
    assert Blocks(chain, 91, 92) == [BlockOutputs(91, [FRESH_OUTPUT])];
    assert UsableIn([FRESH_OUTPUT], 91, []) == [young];
    assert RawPool([BlockOutputs(91, [FRESH_OUTPUT])], []) == [young] + RawPool([], []);
    assert young in Strays(chain, 10, 100, []);
    InclusiveDecoysStrayIff(chain, 10, 100, []);
    var m :| m in DecoyPool(chain, Inclusive, 10, 100, []) && !AgeInBand(m, 10, 100);
    InclusiveDecoysNearBand(chain, 10, 100, [], m);
  }
}
