/**
 The wallet's send path: `build_transfer_with_metadata` and `build_signed_transaction`.

 Key recovery, signing and hybrid output construction are foreign; each is an arbitrary predicate
 saying whether it succeeds.  Every shuffle is an arbitrary permutation.
 */
module Transfer {
  import opened Machine
  import opened Sequences
  import opened Candidates
  import opened CoinSelection
  import opened ChainQuery
  import opened RingBuilder

  const DUST_THRESHOLD: U64 := 1_000_000
  const MIN_RING_SIZE: nat := 20

  datatype Output = Output(amount: U64, change: bool)

  datatype RingInput = RingInput(ring: seq<RingMember>, realIndex: nat, amount: U64)

  datatype TransferResult = TransferResult(inputs: seq<RingInput>, outputs: seq<Output>, actualFee: U64,
                                           selected: seq<OwnedUtxo>)

  datatype TransferError =
    | ZeroAmount
    | BelowDust
    | AmountOverflow
    | SelectFailed(select: SelectError)
    | FetchFailed(fetch: FetchError)
    | RingCountMismatch
    | TotalTooSmall
    | RecipientNotPostQuantum
    | WalletNotPostQuantum
    | TooFewDecoys
    | SpendKeyLost
    | SigningFailed

  function OutputTotal(outputs: seq<Output>): nat {
    if outputs == [] then 0 else OutputTotal(outputs[..|outputs| - 1]) + outputs[|outputs| - 1].amount
  }

  // ----- one ring -----

  function RealMember(utxo: OwnedUtxo): RingMember {
    RingMember(utxo.targetKey, utxo.publicKey, utxo.amount, utxo.createdAt)
  }

  /** Twenty members with pairwise distinct keys; the real one exactly where the index says, and no other
      member one of the wallet's own inputs. */
  ghost predicate RingIntegrity(input: RingInput, utxo: OwnedUtxo, own: seq<Key>) {
    && |input.ring| == MIN_RING_SIZE
    && DistinctBy(input.ring, MemberKey)
    && input.realIndex < |input.ring|
    && input.ring[input.realIndex] == RealMember(utxo)
    && (forall i :: 0 <= i < |input.ring| && i != input.realIndex ==> input.ring[i].targetKey !in own)
    && input.amount == utxo.amount
  }

  /** `decoys` can be combined with `utxo`: enough of them, distinct, and none an own input. */
  ghost predicate GoodDecoys(decoys: seq<RingMember>, own: seq<Key>) {
    && |decoys| == MIN_RING_SIZE - 1
    && DistinctBy(decoys, MemberKey)
    && forall m :: m in decoys ==> m.targetKey !in own
  }

  method AssembleRing(utxo: OwnedUtxo, decoys: seq<RingMember>) returns (ring: seq<RingMember>, realIndex: nat)
    requires |decoys| >= MIN_RING_SIZE - 1
    ensures multiset(ring) == multiset([RealMember(utxo)] + decoys[..MIN_RING_SIZE - 1])
    ensures realIndex < |ring| == MIN_RING_SIZE && ring[realIndex].targetKey == utxo.targetKey
    ensures forall i :: 0 <= i < realIndex ==> ring[i].targetKey != utxo.targetKey
  {
    var assembled := [RealMember(utxo)] + decoys[..MIN_RING_SIZE - 1];
    ring :| multiset(ring) == multiset(assembled);
    assert |multiset(ring)| == |multiset(assembled)|;
    assert assembled[0] in multiset(ring);
    ghost var w :| 0 <= w < |ring| && ring[w] == RealMember(utxo);
    realIndex := 0;
    while ring[realIndex].targetKey != utxo.targetKey
      invariant 0 <= realIndex <= w
      invariant forall i :: 0 <= i < realIndex ==> ring[i].targetKey != utxo.targetKey
      decreases w - realIndex
    {
      realIndex := realIndex + 1;
    }
  }

  /** Good decoys give a ring with full integrity, wherever the shuffle puts the real member. */
  lemma AssembledRing(utxo: OwnedUtxo, decoys: seq<RingMember>, own: seq<Key>, ring: seq<RingMember>, realIndex: nat)
    requires GoodDecoys(decoys, own) && utxo.targetKey in own
    requires multiset(ring) == multiset([RealMember(utxo)] + decoys)
    requires realIndex < |ring| && ring[realIndex].targetKey == utxo.targetKey
    ensures RingIntegrity(RingInput(ring, realIndex, utxo.amount), utxo, own)
  {
    var assembled := [RealMember(utxo)] + decoys;
    forall i, j | 0 <= i < j < |assembled| ensures MemberKey(assembled[i]) != MemberKey(assembled[j]) {
      assert assembled[j] == decoys[j - 1] && decoys[j - 1] in decoys;
      if i > 0 { assert assembled[i] == decoys[i - 1]; }
    }
    DistinctPermuted(assembled, ring, MemberKey);
    assert |multiset(ring)| == |multiset(assembled)|;
    forall i | 0 <= i < |ring|
      ensures ring[i].targetKey == utxo.targetKey ==> ring[i] == RealMember(utxo)
      ensures i != realIndex ==> ring[i].targetKey !in own
    {
      assert ring[i] in multiset(ring);
      assert ring[i] in assembled;
      assert i != realIndex ==> MemberKey(ring[i]) != MemberKey(ring[realIndex]);
    }
  }

  // ----- assembly and signing -----

  /** What must hold before signing for a transaction to come out. */
  predicate Buildable(amount: U64, fee: U64, selected: seq<OwnedUtxo>, totalSelected: U64,
                      decoyRings: seq<seq<RingMember>>,
                      recipientPq: bool, selfPq: bool, recoverable: OwnedUtxo -> bool) {
    && |decoyRings| == |selected|
    && amount + fee <= totalSelected
    && recipientPq && (totalSelected - amount - fee >= DUST_THRESHOLD ==> selfPq)
    && forall i :: 0 <= i < |selected| ==> Spendable(selected[i], decoyRings[i], recoverable)
  }

  /** The first check before signing that fails, in the order they are made. */
  function Rejection(amount: U64, fee: U64, selected: seq<OwnedUtxo>, totalSelected: U64,
                     decoyRings: seq<seq<RingMember>>,
                     recipientPq: bool, selfPq: bool): Option<TransferError> {
    if |decoyRings| != |selected| then Some(RingCountMismatch)
    else if amount + fee > U64_MAX then Some(AmountOverflow)
    else if totalSelected < amount + fee then Some(TotalTooSmall)
    else if !recipientPq then Some(RecipientNotPostQuantum)
    else if totalSelected - amount - fee >= DUST_THRESHOLD && !selfPq then Some(WalletNotPostQuantum)
    else None
  }

  /** Input `i` is the first that cannot be spent, and `error` says why. */
  ghost predicate FailsAt(i: nat, error: TransferError, selected: seq<OwnedUtxo>, decoyRings: seq<seq<RingMember>>,
                          recoverable: OwnedUtxo -> bool, signable: RingInput -> bool) {
    && i < |selected| == |decoyRings|
    && (forall j :: 0 <= j < i ==> Spendable(selected[j], decoyRings[j], recoverable))
    && (if |decoyRings[i]| < MIN_RING_SIZE - 1 then error == TooFewDecoys
        else if !recoverable(selected[i]) then error == SpendKeyLost
        else
          && error == SigningFailed
          && exists input :: SpendsRing(input, selected[i], decoyRings[i]) && !signable(input))
  }

  predicate Spendable(utxo: OwnedUtxo, decoys: seq<RingMember>, recoverable: OwnedUtxo -> bool) {
    |decoys| >= MIN_RING_SIZE - 1 && recoverable(utxo)
  }

  method BuildSignedTransaction(amount: U64, fee: U64, selected: seq<OwnedUtxo>, totalSelected: U64,
                                decoyRings: seq<seq<RingMember>>,
                                recipientPq: bool, selfPq: bool, recoverable: OwnedUtxo -> bool,
                                signable: RingInput -> bool)
    returns (r: Result<TransferResult, TransferError>)
    ensures var rejection := Rejection(amount, fee, selected, totalSelected, decoyRings, recipientPq, selfPq);
            && (rejection.Some? ==> r == Err(rejection.value))
            && (rejection.None? && r.Err? ==>
                  exists i :: FailsAt(i, r.error, selected, decoyRings, recoverable, signable))
    ensures r.Err? && (forall input :: signable(input)) ==>
              !Buildable(amount, fee, selected, totalSelected, decoyRings, recipientPq, selfPq, recoverable)
    ensures r.Ok? ==>
              && Buildable(amount, fee, selected, totalSelected, decoyRings, recipientPq, selfPq, recoverable)
              && r.value.selected == selected
              && PaysOut(r.value, amount, fee, totalSelected)
              && SpendsRings(r.value.inputs, selected, decoyRings)
  {
    if |decoyRings| != |selected| {
      return Err(RingCountMismatch);
    }
    if amount + fee > U64_MAX {
      return Err(AmountOverflow);
    }
    var totalNeeded := amount + fee;
    if totalSelected < totalNeeded {
      return Err(TotalTooSmall);
    }
    var change := totalSelected - totalNeeded;
    if !recipientPq {
      return Err(RecipientNotPostQuantum);
    }
    var outputs := [Output(amount, false)];
    var actualFee := fee;
    if change >= DUST_THRESHOLD {
      if !selfPq {
        return Err(WalletNotPostQuantum);
      }
      outputs := outputs + [Output(change, true)];
    } else {
      actualFee := fee + change;
    }
    var inputs := [];
    for i := 0 to |selected|
      invariant |inputs| == i
      invariant forall j :: 0 <= j < i ==>
        SpendsRing(inputs[j], selected[j], decoyRings[j]) && Spendable(selected[j], decoyRings[j], recoverable)
    {
      if |decoyRings[i]| < MIN_RING_SIZE - 1 {
        assert FailsAt(i, TooFewDecoys, selected, decoyRings, recoverable, signable);
        return Err(TooFewDecoys);
      }
      if !recoverable(selected[i]) {
        assert FailsAt(i, SpendKeyLost, selected, decoyRings, recoverable, signable);
        return Err(SpendKeyLost);
      }
      var ring, realIndex := AssembleRing(selected[i], decoyRings[i]);
      var input := RingInput(ring, realIndex, selected[i].amount);
      if !signable(input) {
        assert SpendsRing(input, selected[i], decoyRings[i]);
        assert FailsAt(i, SigningFailed, selected, decoyRings, recoverable, signable);
        return Err(SigningFailed);
      }
      inputs := inputs + [input];
    }
    return Ok(TransferResult(inputs, outputs, actualFee, selected));
  }

  /** The recipient is paid in full; change comes back exactly when it is not dust, and is otherwise all
      that is added to the fee. */
  predicate PaysOut(t: TransferResult, amount: U64, fee: U64, totalSelected: U64) {
    && totalSelected >= amount + fee
    && (var change := totalSelected - amount - fee;
        if change >= DUST_THRESHOLD
        then t.outputs == [Output(amount, false), Output(change, true)] && t.actualFee == fee
        else t.outputs == [Output(amount, false)] && t.actualFee == fee + change)
  }

  ghost predicate SpendsRing(input: RingInput, utxo: OwnedUtxo, decoys: seq<RingMember>) {
    && |decoys| >= MIN_RING_SIZE - 1
    && multiset(input.ring) == multiset([RealMember(utxo)] + decoys[..MIN_RING_SIZE - 1])
    && input.realIndex < |input.ring| && input.ring[input.realIndex].targetKey == utxo.targetKey
    && input.amount == utxo.amount
  }

  ghost predicate SpendsRings(inputs: seq<RingInput>, selected: seq<OwnedUtxo>, decoyRings: seq<seq<RingMember>>) {
    && |inputs| == |selected| == |decoyRings|
    && forall i :: 0 <= i < |selected| ==> SpendsRing(inputs[i], selected[i], decoyRings[i])
  }

  // ----- value -----

  /** Inputs equal outputs plus fee exactly when the true input sum fits u64; past that the saturated
      total leaves value behind.  The fee is raised by less than the dust threshold. */
  lemma ValueConservedIff(t: TransferResult, amount: U64, fee: U64, selected: seq<OwnedUtxo>)
    requires amount + fee <= Saturated(Total(selected)) && PaysOut(t, amount, fee, Saturated(Total(selected)))
    ensures Total(selected) == OutputTotal(t.outputs) + t.actualFee <==> Total(selected) <= U64_MAX
    ensures fee <= t.actualFee < fee + DUST_THRESHOLD
    ensures |t.outputs| == 2 <==> Saturated(Total(selected)) - amount - fee >= DUST_THRESHOLD
  {
    PaidTotal(t, amount, fee, Saturated(Total(selected)));
  }

  lemma PaidTotal(t: TransferResult, amount: U64, fee: U64, totalSelected: U64)
    requires PaysOut(t, amount, fee, totalSelected)
    ensures OutputTotal(t.outputs) + t.actualFee == totalSelected
  {
    assert OutputTotal([Output(amount, false)]) == OutputTotal([]) + amount by {
      assert [Output(amount, false)][..0] == [];
    }
    if |t.outputs| == 2 {
      assert t.outputs[..1] == [Output(amount, false)];
    }
  }

  const WHALE: OwnedUtxo := OwnedUtxo(1, 0, U64_MAX - 1, 0, 7, 8, 0)

  /** Two coins one short of the u64 maximum, spent for the maximum: the saturated total hides nearly a
      whole coin, and the transaction does not balance. */
  lemma SaturationLosesValue(t: TransferResult, amount: U64, fee: U64)
    requires amount + fee == U64_MAX && PaysOut(t, amount, fee, Saturated(Total([WHALE, WHALE])))
    ensures LargestFirstChoice([WHALE, WHALE], U64_MAX, [WHALE, WHALE])
    ensures Total([WHALE, WHALE]) == OutputTotal(t.outputs) + t.actualFee + (U64_MAX - 2)
  {
    var both := [WHALE, WHALE];
    assert TotalTo(both, 2) == TotalTo(both, 1) + WHALE.amount;
    assert Sort([WHALE], NegatedAmount) == Insert(WHALE, [], NegatedAmount) == [WHALE] by {
      assert [WHALE][1..] == [];
    }
    assert LargestFirst(both) == both by { assert both[1..] == [WHALE]; }
    PaidTotal(t, amount, fee, U64_MAX);
  }

  // ----- the whole path -----

  function OwnKeys(selected: seq<OwnedUtxo>): (r: seq<Key>)
    ensures |r| == |selected|
  {
    seq(|selected|, i requires 0 <= i < |selected| => selected[i].targetKey)
  }

  function AgeAt(syncHeight: U64, utxo: OwnedUtxo): U64 {
    SatSub(syncHeight, utxo.createdAt)
  }

  /** One decoy set per selected input, each drawn from that input's own pool. */
  ghost predicate FetchedRings(chain: Chain, convention: RangeEnd, syncHeight: U64, selected: seq<OwnedUtxo>,
                               decoyRings: seq<seq<RingMember>>) {
    && |decoyRings| == |selected|
    && forall i :: 0 <= i < |selected| ==>
         && AgeAt(syncHeight, selected[i]) >= MIN_DECOY_AGE_BLOCKS
         && DrawnFromPool(DecoyPool(chain, convention, AgeAt(syncHeight, selected[i]), syncHeight, OwnKeys(selected)),
                          MIN_RING_SIZE - 1, decoyRings[i])
  }

  method FetchRings(chain: Chain, convention: RangeEnd, syncHeight: U64, selected: seq<OwnedUtxo>)
    returns (r: Result<seq<seq<RingMember>>, FetchError>)
    ensures r.Ok? ==> FetchedRings(chain, convention, syncHeight, selected, r.value)
    ensures r.Err? ==> exists u :: u in selected && PoolTooSmall(chain, convention, syncHeight, selected, u)
  {
    var exclude := OwnKeys(selected);
    var rings: seq<seq<RingMember>> := [];
    for i := 0 to |selected|
      invariant |rings| == i
      invariant forall j :: 0 <= j < i ==>
        && AgeAt(syncHeight, selected[j]) >= MIN_DECOY_AGE_BLOCKS
        && DrawnFromPool(DecoyPool(chain, convention, AgeAt(syncHeight, selected[j]), syncHeight, exclude),
                         MIN_RING_SIZE - 1, rings[j])
    {
      var fetched := FetchDecoyRingMembers(chain, convention, AgeAt(syncHeight, selected[i]), syncHeight, exclude,
                                           MIN_RING_SIZE - 1);
      if fetched.Err? {
        assert selected[i] in selected;
        return Err(fetched.error);
      }
      rings := rings + [fetched.value];
    }
    return Ok(rings);
  }

  /** An input too fresh to spend privately, or with fewer than nineteen decoys of similar age. */
  ghost predicate PoolTooSmall(chain: Chain, convention: RangeEnd, syncHeight: U64, selected: seq<OwnedUtxo>,
                               u: OwnedUtxo) {
    || AgeAt(syncHeight, u) < MIN_DECOY_AGE_BLOCKS
    || |DecoyPool(chain, convention, AgeAt(syncHeight, u), syncHeight, OwnKeys(selected))| < MIN_RING_SIZE - 1
  }

  lemma FetchedAreGood(chain: Chain, convention: RangeEnd, syncHeight: U64, selected: seq<OwnedUtxo>,
                       decoyRings: seq<seq<RingMember>>, i: nat)
    requires FetchedRings(chain, convention, syncHeight, selected, decoyRings) && i < |selected|
    ensures GoodDecoys(decoyRings[i], OwnKeys(selected))
  {
    DecoysAreDistinct(chain, convention, AgeAt(syncHeight, selected[i]), syncHeight, OwnKeys(selected),
                      MIN_RING_SIZE - 1, decoyRings[i]);
  }

  lemma RingsHaveIntegrity(chain: Chain, convention: RangeEnd, syncHeight: U64, selected: seq<OwnedUtxo>,
                           decoyRings: seq<seq<RingMember>>, inputs: seq<RingInput>)
    requires FetchedRings(chain, convention, syncHeight, selected, decoyRings)
    requires SpendsRings(inputs, selected, decoyRings)
    ensures forall i :: 0 <= i < |selected| ==> RingIntegrity(inputs[i], selected[i], OwnKeys(selected))
  {
    forall i | 0 <= i < |selected| ensures RingIntegrity(inputs[i], selected[i], OwnKeys(selected)) {
      FetchedAreGood(chain, convention, syncHeight, selected, decoyRings, i);
      assert decoyRings[i][..MIN_RING_SIZE - 1] == decoyRings[i];
      assert OwnKeys(selected)[i] == selected[i].targetKey;
      assert SpendsRing(inputs[i], selected[i], decoyRings[i]);
      AssembledRing(selected[i], decoyRings[i], OwnKeys(selected), inputs[i].ring, inputs[i].realIndex);
    }
  }

  /** Against a node that answers half-open ranges every member of every ring but the real one has an age
      in the band of that ring's own input. */
  lemma HalfOpenRingsInBand(chain: Chain, syncHeight: U64, selected: seq<OwnedUtxo>, decoyRings: seq<seq<RingMember>>,
                            inputs: seq<RingInput>, i: nat, k: nat)
    requires FetchedRings(chain, HalfOpen, syncHeight, selected, decoyRings)
    requires SpendsRings(inputs, selected, decoyRings)
    requires i < |selected| && k < |inputs[i].ring| && k != inputs[i].realIndex
    ensures AgeInBand(inputs[i].ring[k], AgeAt(syncHeight, selected[i]), syncHeight)
  {
    var m := inputs[i].ring[k];
    RingsHaveIntegrity(chain, HalfOpen, syncHeight, selected, decoyRings, inputs);
    assert RingIntegrity(inputs[i], selected[i], OwnKeys(selected));
    assert SpendsRing(inputs[i], selected[i], decoyRings[i]);
    assert decoyRings[i][..MIN_RING_SIZE - 1] == decoyRings[i];
    assert OwnKeys(selected)[i] == selected[i].targetKey;
    assert m in multiset(inputs[i].ring);
    assert m in [RealMember(selected[i])] + decoyRings[i];
    assert m in decoyRings[i];
    assert m in multiset(decoyRings[i]);
    HalfOpenDecoysInBand(chain, AgeAt(syncHeight, selected[i]), syncHeight, OwnKeys(selected), m);
  }

  // ----- keys across the rings of one transfer -----

  function CoinKey(u: OwnedUtxo): Key {
    u.targetKey
  }

  /** The real key of one ring appears in another exactly when the two coins share it. */
  lemma RealKeyAppearsIff(chain: Chain, convention: RangeEnd, syncHeight: U64, selected: seq<OwnedUtxo>,
                          decoyRings: seq<seq<RingMember>>, inputs: seq<RingInput>, i: nat, j: nat)
    requires FetchedRings(chain, convention, syncHeight, selected, decoyRings)
    requires SpendsRings(inputs, selected, decoyRings) && i < |selected| && j < |selected|
    ensures (exists k :: 0 <= k < |inputs[j].ring| && inputs[j].ring[k].targetKey == CoinKey(selected[i])) <==>
            CoinKey(selected[i]) == CoinKey(selected[j])
  {
    RingsHaveIntegrity(chain, convention, syncHeight, selected, decoyRings, inputs);
    assert RingIntegrity(inputs[j], selected[j], OwnKeys(selected));
    assert OwnKeys(selected)[i] == CoinKey(selected[i]);
    assert inputs[j].ring[inputs[j].realIndex].targetKey == CoinKey(selected[j]);
  }

  /** So the real keys of a transfer are pairwise distinct exactly when the selected coins' keys are. */
  lemma RealKeysDistinctIff(chain: Chain, convention: RangeEnd, syncHeight: U64, selected: seq<OwnedUtxo>,
                            decoyRings: seq<seq<RingMember>>, inputs: seq<RingInput>)
    requires FetchedRings(chain, convention, syncHeight, selected, decoyRings)
    requires SpendsRings(inputs, selected, decoyRings)
    ensures DistinctBy(selected, CoinKey) <==>
            forall i, j :: 0 <= i < |inputs| && 0 <= j < |inputs| && i != j ==>
              forall k :: 0 <= k < |inputs[j].ring| ==> inputs[j].ring[k].targetKey != CoinKey(selected[i])
  {
    forall i, j | 0 <= i < |selected| && 0 <= j < |selected|
      ensures (exists k :: 0 <= k < |inputs[j].ring| && inputs[j].ring[k].targetKey == CoinKey(selected[i])) <==>
              CoinKey(selected[i]) == CoinKey(selected[j])
    {
      RealKeyAppearsIff(chain, convention, syncHeight, selected, decoyRings, inputs, i, j);
    }
  }

  /** A wallet whose coins all have keys of their own selects such coins. */
  lemma DistinctWalletSelectsDistinct(utxos: seq<OwnedUtxo>, target: U64, selected: seq<OwnedUtxo>)
    requires DistinctBy(utxos, CoinKey) && LargestFirstChoice(utxos, target, selected)
    ensures DistinctBy(selected, CoinKey)
  {
    SortPermutes(utxos, NegatedAmount);
    DistinctPermuted(utxos, LargestFirst(utxos), CoinKey);
  }

  const WINNER: OwnedUtxo := OwnedUtxo(1, 0, 2_000_000, 0, 7, 8, 0)
  const PAYOUT: OwnedUtxo := OwnedUtxo(2, 1, 2_000_000, 50, 7, 8, 0)

  /** A lottery payout carries the key of the coin that won it, and both can be selected together. */
  lemma PayoutSharesKey()
    ensures LargestFirstChoice([WINNER, PAYOUT], 3_000_000, [WINNER, PAYOUT])
    ensures !DistinctBy([WINNER, PAYOUT], CoinKey)
  {
    var both := [WINNER, PAYOUT];
    assert TotalTo(both, 2) == TotalTo(both, 1) + PAYOUT.amount;
    assert Sort([PAYOUT], NegatedAmount) == Insert(PAYOUT, [], NegatedAmount) == [PAYOUT] by {
      assert [PAYOUT][1..] == [];
    }
    assert LargestFirst(both) == both by { assert both[1..] == [PAYOUT]; }
    assert CoinKey(both[0]) == CoinKey(both[1]);
  }

  /** A finished transfer: fewest coins, value paid out, and every ring sound. */
  ghost predicate SoundTransfer(t: TransferResult, utxos: seq<OwnedUtxo>, amount: U64, fee: U64) {
    && amount + fee <= U64_MAX && amount >= DUST_THRESHOLD
    && LargestFirstChoice(utxos, amount + fee, t.selected)
    && PaysOut(t, amount, fee, Saturated(Total(t.selected)))
    && |t.inputs| == |t.selected|
    && forall i :: 0 <= i < |t.selected| ==> RingIntegrity(t.inputs[i], t.selected[i], OwnKeys(t.selected))
  }

  datatype Plan = Plan(selected: seq<OwnedUtxo>, totalSelected: U64, decoyRings: seq<seq<RingMember>>)

  /** Everything before assembly: validation, coin selection and decoy fetching. */
  method PlanTransfer(utxos: seq<OwnedUtxo>, syncHeight: U64, chain: Chain, convention: RangeEnd, amount: U64, fee: U64)
    returns (r: Result<Plan, TransferError>)
    ensures if amount == 0 then r == Err(ZeroAmount)
            else if amount < DUST_THRESHOLD then r == Err(BelowDust)
            else if amount + fee > U64_MAX then r == Err(AmountOverflow)
            else if Total(utxos) < amount + fee then r.Err? && r.error.SelectFailed?
            else if r.Err? then r.error.FetchFailed? && FetchFails(utxos, syncHeight, chain, convention, amount + fee)
            else
              && LargestFirstChoice(utxos, amount + fee, r.value.selected)
              && r.value.totalSelected == Saturated(Total(r.value.selected)) >= amount + fee
              && FetchedRings(chain, convention, syncHeight, r.value.selected, r.value.decoyRings)
  {
    if amount == 0 {
      return Err(ZeroAmount);
    }
    if amount < DUST_THRESHOLD {
      return Err(BelowDust);
    }
    if amount + fee > U64_MAX {
      return Err(AmountOverflow);
    }
    var chosen := SelectUtxos(utxos, amount + fee);
    if chosen.Err? {
      EmptyWallet(utxos);
      return Err(SelectFailed(chosen.error));
    }
    var (selected, totalSelected) := chosen.value;
    ReachesTarget(utxos, amount + fee, selected);
    var fetched := FetchRings(chain, convention, syncHeight, selected);
    if fetched.Err? {
      return Err(FetchFailed(fetched.error));
    }
    return Ok(Plan(selected, totalSelected, fetched.value));
  }

  /** Some input of the selection cannot be given a ring. */
  ghost predicate FetchFails(utxos: seq<OwnedUtxo>, syncHeight: U64, chain: Chain, convention: RangeEnd, target: U64) {
    exists selected, u :: LargestFirstChoice(utxos, target, selected) && u in selected
                          && PoolTooSmall(chain, convention, syncHeight, selected, u)
  }

  method BuildTransfer(utxos: seq<OwnedUtxo>, syncHeight: U64, chain: Chain, convention: RangeEnd, amount: U64,
                       fee: U64,
                       recipientPq: bool, selfPq: bool, recoverable: OwnedUtxo -> bool, signable: RingInput -> bool)
    returns (r: Result<TransferResult, TransferError>)
    ensures r.Ok? ==> SoundTransfer(r.value, utxos, amount, fee)
    ensures recipientPq && selfPq && (forall u :: recoverable(u)) && (forall input :: signable(input)) && r.Err? ==>
              || amount < DUST_THRESHOLD
              || amount + fee > U64_MAX
              || Total(utxos) < amount + fee
              || FetchFails(utxos, syncHeight, chain, convention, amount + fee)
  {
    var plan := PlanTransfer(utxos, syncHeight, chain, convention, amount, fee);
    if plan.Err? {
      return Err(plan.error);
    }
    var Plan(selected, totalSelected, decoyRings) := plan.value;
    r := BuildSignedTransaction(amount, fee, selected, totalSelected, decoyRings, recipientPq, selfPq, recoverable,
                                signable);
    if r.Ok? {
      RingsHaveIntegrity(chain, convention, syncHeight, selected, decoyRings, r.value.inputs);
    }
  }

  lemma EmptyWallet(utxos: seq<OwnedUtxo>)
    ensures utxos == [] ==> Total(utxos) == 0
  {
  }

  lemma ReachesTarget(utxos: seq<OwnedUtxo>, target: U64, selected: seq<OwnedUtxo>)
    requires LargestFirstChoice(utxos, target, selected)
    ensures Total(selected) >= target
  {
    PrefixIsTotalTo(LargestFirst(utxos), |selected|);
  }
}
