/** Wallet synchronisation in batches of 100 blocks: `WalletScanner::scan_outputs` and `sync_wallet`. */
module WalletSync {
  import opened Machine
  import opened Sequences
  import opened Candidates
  import opened CoinSelection
  import opened ChainQuery

  const BATCH_SIZE: nat := 100

  /** The ownership check: target key, public key, ciphertext and index to a subaddress. */
  type Owner = (Key, Key, Option<nat>, U32) -> Option<U64>

  /** One output: skipped when a key or hash is malformed or the wallet does not own it; a malformed
      amount reads as zero. */
  function ScanOne(out: RpcOutput, height: U64, owner: Owner): seq<OwnedUtxo> {
    match (out.targetKey, out.publicKey, out.txHash)
    case (Some(target), Some(public), Some(hash)) =>
      (match owner(target, public, out.kemCiphertext, out.outputIndex)
       case Some(subaddress) =>
         var amount := if out.amount.Some? then out.amount.value else 0;
         [OwnedUtxo(hash, out.outputIndex, amount, height, target, public, subaddress)]
       case None => [])
    case _ => []
  }

  function ScanBlock(outputs: seq<RpcOutput>, height: U64, owner: Owner): seq<OwnedUtxo> {
    if outputs == [] then [] else ScanOne(outputs[0], height, owner) + ScanBlock(outputs[1..], height, owner)
  }

  function Scan(blocks: seq<BlockOutputs>, owner: Owner): seq<OwnedUtxo> {
    if blocks == [] then [] else ScanBlock(blocks[0].outputs, blocks[0].height, owner) + Scan(blocks[1..], owner)
  }

  method ScanOutputs(blocks: seq<BlockOutputs>, owner: Owner) returns (owned: seq<OwnedUtxo>)
    ensures owned == Scan(blocks, owner)
  {
    owned := [];
    for i := 0 to |blocks|
      invariant owned + Scan(blocks[i..], owner) == Scan(blocks, owner)
    {
      var block := blocks[i];
      var found := ScanBlockOutputs(block, owner);
      Assoc(owned, found, Scan(blocks[i..][1..], owner));
      assert blocks[i..][1..] == blocks[i + 1..];
      owned := owned + found;
    }
  }

  method ScanBlockOutputs(block: BlockOutputs, owner: Owner) returns (owned: seq<OwnedUtxo>)
    ensures owned == ScanBlock(block.outputs, block.height, owner)
  {
    owned := [];
    for j := 0 to |block.outputs|
      invariant owned + ScanBlock(block.outputs[j..], block.height, owner)
                == ScanBlock(block.outputs, block.height, owner)
    {
      var found := ScanOne(block.outputs[j], block.height, owner);
      Assoc(owned, found, ScanBlock(block.outputs[j..][1..], block.height, owner));
      assert block.outputs[j..][1..] == block.outputs[j + 1..];
      owned := owned + found;
    }
  }

  // ----- what the wallet owns, height by height -----

  type ByHeight = nat -> seq<OwnedUtxo>

  function OwnedBy(chain: Chain, owner: Owner): ByHeight {
    (h: nat) => if h <= U64_MAX && h in chain then ScanBlock(chain[h], h, owner) else []
  }

  /** The coins at heights in [a, b), in chain order: the reference scan. */
  function Range(at: ByHeight, a: nat, b: nat): seq<OwnedUtxo>
    decreases b - a
  {
    if a >= b then [] else at(a) + Range(at, a + 1, b)
  }

  lemma {:induction false} RangeSplit(at: ByHeight, a: nat, b: nat, c: nat)
    requires a <= b <= c
    ensures Range(at, a, c) == Range(at, a, b) + Range(at, b, c)
    decreases b - a
  {
    if a < b {
      RangeSplit(at, a + 1, b, c);
      Assoc(at(a), Range(at, a + 1, b), Range(at, b, c));
    }
  }

  lemma RangeSingle(at: ByHeight, h: nat)
    ensures Range(at, h, h + 1) == at(h)
  {
    assert Range(at, h + 1, h + 1) == [];
  }

  lemma ScanCons(block: BlockOutputs, rest: seq<BlockOutputs>, owner: Owner)
    ensures Scan([block] + rest, owner) == ScanBlock(block.outputs, block.height, owner) + Scan(rest, owner)
  {
    var all := [block] + rest;
    assert all[0] == block && all[1..] == rest;
  }

  lemma OwnedAt(chain: Chain, owner: Owner, h: nat)
    ensures OwnedBy(chain, owner)(h) == if h <= U64_MAX && h in chain then ScanBlock(chain[h], h, owner) else []
  {
  }

  lemma RangeStep(at: ByHeight, a: nat, b: nat)
    ensures a < b ==> Range(at, a, b) == at(a) + Range(at, a + 1, b)
  {
  }

  /** Scanning the blocks of a range is the reference scan of that range. */
  lemma {:induction false} ScanIsRange(chain: Chain, owner: Owner, a: nat, b: nat)
    ensures Scan(Blocks(chain, a, b), owner) == Range(OwnedBy(chain, owner), a, b)
    decreases b - a
  {
    if a < b {
      var at := OwnedBy(chain, owner);
      ScanIsRange(chain, owner, a + 1, b);
      OwnedAt(chain, owner, a);
      RangeStep(at, a, b);
      ScanStep(chain, owner, a, b);
    }
  }

  lemma ScanStep(chain: Chain, owner: Owner, a: nat, b: nat)
    requires a < b
    ensures Scan(Blocks(chain, a, b), owner) ==
            (if a <= U64_MAX && a in chain then ScanBlock(chain[a], a, owner) else [])
            + Scan(Blocks(chain, a + 1, b), owner)
  {
    if a <= U64_MAX && a in chain {
      ScanCons(BlockOutputs(a, chain[a]), Blocks(chain, a + 1, b), owner);
    } else {
      assert Blocks(chain, a, b) == Blocks(chain, a + 1, b);
    }
  }

  // ----- the batching loop -----

  function BatchEnd(height: nat, tip: nat): nat {
    Min(height + BATCH_SIZE, tip)
  }

  /** Everything the batches from `height` on return. */
  function Batches(at: ByHeight, convention: RangeEnd, height: nat, tip: nat): seq<OwnedUtxo>
    decreases tip - height
  {
    if height >= tip then []
    else
      Range(at, height, Stop(BatchEnd(height, tip), convention)) + Batches(at, convention, BatchEnd(height, tip), tip)
  }

  /** No batch start plus 100 passes u64, where the source's addition would overflow. */
  predicate BatchesFit(height: nat, tip: nat)
    decreases tip - height
  {
    height < tip ==> height + BATCH_SIZE <= U64_MAX && BatchesFit(BatchEnd(height, tip), tip)
  }

  /** `sync_wallet`. */
  method SyncWallet(chain: Chain, owner: Owner, convention: RangeEnd, from: U64, tip: U64)
    returns (utxos: seq<OwnedUtxo>, syncedTo: U64)
    requires BatchesFit(from, tip)
    ensures syncedTo == tip
    ensures utxos == Batches(OwnedBy(chain, owner), convention, from, tip)
  {
    if from >= tip {
      return [], tip;
    }
    ghost var at := OwnedBy(chain, owner);
    utxos := [];
    var height := from;
    while height < tip
      invariant from <= height <= tip && BatchesFit(height, tip)
      invariant Batches(at, convention, from, tip) == utxos + Batches(at, convention, height, tip)
    {
      var endHeight := BatchEnd(height, tip);
      ScanIsRange(chain, owner, height, Stop(endHeight, convention));
      var outputs := GetOutputs(chain, height, endHeight, convention);
      var owned := ScanOutputs(outputs, owner);
      Assoc(utxos, owned, Batches(at, convention, endHeight, tip));
      utxos := utxos + owned;
      height := endHeight;
    }
    syncedTo := tip;
  }

  // ----- a node that answers half-open ranges -----

  /** Batching is invisible: one scan of [from, tip), each height once and in order. */
  lemma {:induction false} HalfOpenSyncIsOneScan(at: ByHeight, from: nat, tip: nat)
    requires from <= tip
    ensures Batches(at, HalfOpen, from, tip) == Range(at, from, tip)
    decreases tip - from
  {
    if from < tip {
      HalfOpenSyncIsOneScan(at, BatchEnd(from, tip), tip);
      RangeSplit(at, from, BatchEnd(from, tip), tip);
    }
  }

  /** Resuming at the last synced height loses and repeats nothing. */
  lemma HalfOpenSyncsCompose(at: ByHeight, h0: nat, h1: nat, h2: nat)
    requires h0 <= h1 <= h2
    ensures Batches(at, HalfOpen, h0, h1) + Batches(at, HalfOpen, h1, h2) == Batches(at, HalfOpen, h0, h2)
  {
    HalfOpenSyncIsOneScan(at, h0, h1);
    HalfOpenSyncIsOneScan(at, h1, h2);
    HalfOpenSyncIsOneScan(at, h0, h2);
    RangeSplit(at, h0, h1, h2);
  }

  // ----- the node as it is: inclusive ranges -----

  /** How many coins sit at heights where one batch ends and the next begins. */
  function AtSeams(at: ByHeight, height: nat, tip: nat): nat
    decreases tip - height
  {
    if height + BATCH_SIZE >= tip then 0
    else |at(height + BATCH_SIZE)| + AtSeams(at, height + BATCH_SIZE, tip)
  }

  /** The sync reads one height past the promised range, and every seam twice. */
  lemma {:induction false} InclusiveSyncLength(at: ByHeight, from: nat, tip: nat)
    requires from < tip
    ensures |Batches(at, Inclusive, from, tip)| == |Range(at, from, tip + 1)| + AtSeams(at, from, tip)
    decreases tip - from
  {
    var end := BatchEnd(from, tip);
    if end < tip {
      InclusiveSyncLength(at, end, tip);
      RangeSplit(at, from, end, tip + 1);
      RangeSplit(at, from, end, end + 1);
      RangeSingle(at, end);
    }
  }

  /** With nothing owned at the seams, the batches are one scan of [from, tip]. */
  lemma {:induction false} CleanSeams(at: ByHeight, from: nat, tip: nat)
    requires from < tip && AtSeams(at, from, tip) == 0
    ensures Batches(at, Inclusive, from, tip) == Range(at, from, tip + 1)
    decreases tip - from
  {
    var end := BatchEnd(from, tip);
    if end < tip {
      CleanSeams(at, end, tip);
      RangeSplit(at, from, end, tip + 1);
      EmptySeam(at, from, end);
      BatchStep(at, from, tip);
    }
  }

  /** Reading an empty seam adds nothing. */
  lemma EmptySeam(at: ByHeight, from: nat, end: nat)
    requires from <= end && at(end) == []
    ensures Range(at, from, end + 1) == Range(at, from, end)
  {
    RangeSplit(at, from, end, end + 1);
    RangeSingle(at, end);
  }

  lemma BatchStep(at: ByHeight, from: nat, tip: nat)
    requires from < tip
    ensures var end := BatchEnd(from, tip);
            Batches(at, Inclusive, from, tip) == Range(at, from, end + 1) + Batches(at, Inclusive, end, tip)
  {
  }

  /** Exactly when: the sync reports each coin of [from, tip] once iff no coin sits on a seam. */
  lemma InclusiveSyncExactIff(at: ByHeight, from: nat, tip: nat)
    requires from < tip
    ensures Batches(at, Inclusive, from, tip) == Range(at, from, tip + 1) <==> AtSeams(at, from, tip) == 0
  {
    InclusiveSyncLength(at, from, tip);
    if AtSeams(at, from, tip) == 0 {
      CleanSeams(at, from, tip);
    }
  }

  /** Seams are the heights a whole number of batches above the start and below the tip. */
  lemma {:induction false} SeamsAre(at: ByHeight, from: nat, tip: nat)
    ensures AtSeams(at, from, tip) == 0
            <==> forall h: nat :: from < h < tip && (h - from) % BATCH_SIZE == 0 ==> at(h) == []
    decreases tip - from
  {
    if from + BATCH_SIZE < tip {
      SeamsAre(at, from + BATCH_SIZE, tip);
    }
  }

  /** And resuming re-reads the last synced height: two syncs repeat what it holds. */
  lemma ResumedSyncLength(at: ByHeight, h0: nat, h1: nat, h2: nat)
    requires h0 < h1 < h2
    ensures |Batches(at, Inclusive, h0, h1)| + |Batches(at, Inclusive, h1, h2)|
            == |Range(at, h0, h2 + 1)| + |at(h1)| + AtSeams(at, h0, h1) + AtSeams(at, h1, h2)
  {
    InclusiveSyncLength(at, h0, h1);
    InclusiveSyncLength(at, h1, h2);
    RangeSplit(at, h0, h1, h2 + 1);
    RangeSplit(at, h0, h1, h1 + 1);
    RangeSingle(at, h1);
  }

  /** Exactly when: a resumed sync reports each coin of [h0, h2] once iff no coin sits on a seam or at the
      resumed height. */
  lemma ResumedSyncExactIff(at: ByHeight, h0: nat, h1: nat, h2: nat)
    requires h0 < h1 < h2
    ensures Batches(at, Inclusive, h0, h1) + Batches(at, Inclusive, h1, h2) == Range(at, h0, h2 + 1)
            <==> at(h1) == [] && AtSeams(at, h0, h1) == 0 && AtSeams(at, h1, h2) == 0
  {
    ResumedSyncLength(at, h0, h1, h2);
    if at(h1) == [] && AtSeams(at, h0, h1) == 0 && AtSeams(at, h1, h2) == 0 {
      CleanSeams(at, h0, h1);
      CleanSeams(at, h1, h2);
      EmptySeam(at, h0, h1);
      RangeSplit(at, h0, h1, h2 + 1);
    }
  }

  function OnlyAt(height: nat, u: OwnedUtxo): ByHeight {
    (h: nat) => if h == height then [u] else []
  }

  lemma OneCoinRange(height: nat, u: OwnedUtxo, a: nat, b: nat)
    requires a <= height < b
    ensures Range(OnlyAt(height, u), a, b) == [u]
  {
    var at := OnlyAt(height, u);
    NothingIn(at, a, height);
    NothingIn(at, height + 1, b);
    RangeSplit(at, a, height, b);
  }

  /** A single coin at height 100 is reported twice by one sync of 150 blocks from genesis. */
  lemma SeamCoinReportedTwice(u: OwnedUtxo)
    ensures Batches(OnlyAt(100, u), Inclusive, 0, 150) == [u, u]
    ensures Range(OnlyAt(100, u), 0, 151) == [u]
  {
    OneCoinRange(100, u, 0, 151);
    OneCoinRange(100, u, 0, 101);
    OneCoinRange(100, u, 100, 151);
    assert Batches(OnlyAt(100, u), Inclusive, 100, 150) == [u];
  }

  lemma {:induction false} NothingIn(at: ByHeight, a: nat, b: nat)
    requires forall h: nat :: a <= h < b ==> at(h) == []
    ensures Range(at, a, b) == []
    decreases b - a
  {
    if a < b {
      NothingIn(at, a + 1, b);
    }
  }
}
