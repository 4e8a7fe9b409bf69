/**
 The time-driven difficulty controller of botho/src/block.rs.

 A higher number is an easier proof of work.  Every recorded block adds to the monetary
 accumulators and, when an inter-block time is known, rescales the difficulty by
 `observed / target` in basis points.  Runs of the controller are sequences of blocks.
 */
module Difficulty {
  import opened Machine
  import opened Arithmetic

  const INITIAL_DIFFICULTY: U64 := 54_000_000_000_000_000
  const MIN_DIFFICULTY: U64 := 1
  const MAX_EASE_MULTIPLE: U64 := 256
  const MAX_DIFFICULTY: U64 := SatMul(INITIAL_DIFFICULTY, MAX_EASE_MULTIPLE)
  const TARGET_BLOCK_TIME_SECS: U64 := 5
  const MAX_OBSERVED_BLOCK_TIME_MULTIPLE: U64 := 12
  const RATIO_SCALE: nat := 10_000
  const MAX_ADJUSTMENT_FACTOR_BPS: nat := 2 * RATIO_SCALE
  const INITIAL_REWARD: U64 := 50_000_000_000_000

  // ----- the kernel -----

  /** The multiplier `observed / target`, in basis points, clamped to [0.5x, 2.0x]. */
  function Multiplier(observed: nat, target: nat): nat
    requires target > 0
  {
    Clamp(observed * RATIO_SCALE / target, RATIO_SCALE / 2, MAX_ADJUSTMENT_FACTOR_BPS)
  }

  function Scale(current: U64, bps: nat): U64 {
    Clamp(Min(current * bps / RATIO_SCALE, U64_MAX), MIN_DIFFICULTY, MAX_DIFFICULTY)
  }

  function TimeAdjusted(current: U64, observedSecs: U64, target: U64): U64 {
    if target == 0 then Clamp(current, MIN_DIFFICULTY, MAX_DIFFICULTY)
    else
      var observed := Min(observedSecs, SatMul(target, MAX_OBSERVED_BLOCK_TIME_MULTIPLE));
      Scale(current, Multiplier(observed, target))
  }

  lemma MultiplierMonotone(o1: nat, o2: nat, target: nat)
    requires o1 <= o2 && target > 0
    ensures Multiplier(o1, target) <= Multiplier(o2, target)
  {
    DivMonotone(o1 * RATIO_SCALE, o2 * RATIO_SCALE, target);
  }

  lemma MultiplierExtremes(observed: nat, target: nat)
    requires target > 0
    ensures observed >= 2 * target ==> Multiplier(observed, target) == MAX_ADJUSTMENT_FACTOR_BPS
    ensures 2 * observed <= target ==> Multiplier(observed, target) == RATIO_SCALE / 2
  {
    if observed >= 2 * target {
      DivIs(2 * RATIO_SCALE * target, target, 2 * RATIO_SCALE);
      DivMonotone(2 * RATIO_SCALE * target, observed * RATIO_SCALE, target);
    }
    if 2 * observed <= target {
      DivIs(RATIO_SCALE / 2 * target, target, RATIO_SCALE / 2);
      DivMonotone(observed * RATIO_SCALE, RATIO_SCALE / 2 * target, target);
    }
  }

  /** The 12x cap on the observed time never changes a result: the 2.0x clamp always binds first. */
  lemma ObservedCapIsInert(current: U64, observed: U64, target: U64)
    requires target > 0
    ensures TimeAdjusted(current, observed, target) == Scale(current, Multiplier(observed, target))
  {
    var cap := SatMul(target, MAX_OBSERVED_BLOCK_TIME_MULTIPLE);
    if observed > cap {
      MultiplierExtremes(observed, target);
      MultiplierExtremes(cap, target);
    }
  }

  /** The kernel is monotone in the current difficulty and in the observed time. */
  lemma TimeAdjustedMonotone(d1: U64, d2: U64, o1: U64, o2: U64, target: U64)
    requires d1 <= d2 && o1 <= o2
    ensures TimeAdjusted(d1, o1, target) <= TimeAdjusted(d2, o2, target)
  {
    if target > 0 {
      ObservedCapIsInert(d1, o1, target);
      ObservedCapIsInert(d2, o2, target);
      MultiplierMonotone(o1, o2, target);
      var m1, m2 := Multiplier(o1, target), Multiplier(o2, target);
      MulMonotone(d1, m1, d2, m2);
      DivMonotone(d1 * m1, d2 * m2, RATIO_SCALE);
    }
  }

  // ----- the controller as a state machine -----

  datatype State = State(
    difficulty: U64, totalTx: U64, totalEmitted: U128, totalBurned: U128,
    epochTx: U64, epochEmission: U64, epochBurns: U64, currentReward: U64)

  datatype Block = Block(txCount: U64, reward: U64, burned: U64, observed: Option<U64>)

  function Fresh(initialDifficulty: U64): State {
    State(initialDifficulty, 0, 0, 0, 0, 0, 0, INITIAL_REWARD)
  }

  function Adjust(difficulty: U64, observed: Option<U64>): U64 {
    match observed
    case None => difficulty
    case Some(secs) => TimeAdjusted(difficulty, secs, TARGET_BLOCK_TIME_SECS)
  }

  /** One `record_block`; `None` is the overflow panic of an unchecked `+=`. */
  function Record(s: State, b: Block): Option<State> {
    if s.totalTx + b.txCount <= U64_MAX && s.totalEmitted + b.reward <= U128_MAX
       && s.totalBurned + b.burned <= U128_MAX && s.epochTx + b.txCount <= U64_MAX
       && s.epochEmission + b.reward <= U64_MAX && s.epochBurns + b.burned <= U64_MAX
    then
      Some(State(Adjust(s.difficulty, b.observed), s.totalTx + b.txCount, s.totalEmitted + b.reward,
                 s.totalBurned + b.burned, s.epochTx + b.txCount, s.epochEmission + b.reward,
                 s.epochBurns + b.burned, b.reward))
    else None
  }

  class EmissionController {
    var difficulty: U64
    var totalTx: U64
    var totalEmitted: U128
    var totalBurned: U128
    var epochTx: U64
    var epochEmission: U64
    var epochBurns: U64
    var currentReward: U64

    ghost function Snapshot(): State
      reads this
    {
      State(difficulty, totalTx, totalEmitted, totalBurned, epochTx, epochEmission, epochBurns, currentReward)
    }

    constructor (initialDifficulty: U64)
      ensures Snapshot() == Fresh(initialDifficulty)
    {
      difficulty, totalTx, totalEmitted, totalBurned := initialDifficulty, 0, 0, 0;
      epochTx, epochEmission, epochBurns, currentReward := 0, 0, 0, INITIAL_REWARD;
    }

    method RecordBlock(txCount: U64, rewardPaid: U64, feesBurned: U64, observedSecs: Option<U64>)
      returns (newDifficulty: U64, blockReward: U64)
      requires Record(Snapshot(), Block(txCount, rewardPaid, feesBurned, observedSecs)).Some?
      modifies this
      ensures Some(Snapshot()) == Record(old(Snapshot()), Block(txCount, rewardPaid, feesBurned, observedSecs))
      ensures newDifficulty == difficulty && blockReward == rewardPaid
    {
      totalTx := totalTx + txCount;
      totalEmitted := totalEmitted + rewardPaid;
      totalBurned := totalBurned + feesBurned;
      epochTx := epochTx + txCount;
      epochEmission := epochEmission + rewardPaid;
      epochBurns := epochBurns + feesBurned;
      currentReward := rewardPaid;
      if observedSecs.Some? {
        difficulty := TimeAdjusted(difficulty, observedSecs.value, TARGET_BLOCK_TIME_SECS);
      }
      newDifficulty, blockReward := difficulty, currentReward;
    }

    method ResetEpoch()
      modifies this
      ensures Snapshot() == old(Snapshot()).(epochTx := 0, epochEmission := 0, epochBurns := 0)
    {
      epochTx, epochEmission, epochBurns := 0, 0, 0;
    }
  }

  // ----- whole runs -----

  function Run(s: State, blocks: seq<Block>): Option<State> {
    if blocks == [] then Some(s)
    else
      var last := |blocks| - 1;
      match Run(s, blocks[..last])
      case None => None
      case Some(t) => Record(t, blocks[last])
  }

  function TotalTx(blocks: seq<Block>): nat {
    if blocks == [] then 0 else TotalTx(blocks[..|blocks| - 1]) + blocks[|blocks| - 1].txCount
  }

  function TotalReward(blocks: seq<Block>): nat {
    if blocks == [] then 0 else TotalReward(blocks[..|blocks| - 1]) + blocks[|blocks| - 1].reward
  }

  function TotalBurned(blocks: seq<Block>): nat {
    if blocks == [] then 0 else TotalBurned(blocks[..|blocks| - 1]) + blocks[|blocks| - 1].burned
  }

  /** The difficulty signal alone: what the controller would compute with no accounting at all. */
  function DifficultyAfter(difficulty: U64, blocks: seq<Block>): U64 {
    if blocks == [] then difficulty
    else Adjust(DifficultyAfter(difficulty, blocks[..|blocks| - 1]), blocks[|blocks| - 1].observed)
  }

  predicate AccumulatorsFit(s: State, blocks: seq<Block>) {
    && s.totalTx + TotalTx(blocks) <= U64_MAX
    && s.epochTx + TotalTx(blocks) <= U64_MAX
    && s.epochEmission + TotalReward(blocks) <= U64_MAX
    && s.epochBurns + TotalBurned(blocks) <= U64_MAX
    && s.totalEmitted + TotalReward(blocks) <= U128_MAX
    && s.totalBurned + TotalBurned(blocks) <= U128_MAX
  }

  /** A run panics exactly when some accumulator's true sum leaves its width; otherwise every
      accumulator holds its exact sum and the difficulty depends on the observed times alone. */
  lemma {:induction false} RunAccounting(s: State, blocks: seq<Block>)
    ensures Run(s, blocks).Some? <==> AccumulatorsFit(s, blocks)
    ensures Run(s, blocks).Some? ==>
              var t := Run(s, blocks).value;
              && t.totalEmitted == s.totalEmitted + TotalReward(blocks)
              && t.totalBurned == s.totalBurned + TotalBurned(blocks)
              && t.totalTx == s.totalTx + TotalTx(blocks)
              && t.epochTx == s.epochTx + TotalTx(blocks)
              && t.epochEmission == s.epochEmission + TotalReward(blocks)
              && t.epochBurns == s.epochBurns + TotalBurned(blocks)
              && t.difficulty == DifficultyAfter(s.difficulty, blocks)
  {
    if blocks != [] {
      RunAccounting(s, blocks[..|blocks| - 1]);
    }
  }

  lemma {:induction false} ConstantReward(blocks: seq<Block>, reward: U64)
    requires forall i :: 0 <= i < |blocks| ==> blocks[i].reward == reward
    ensures TotalReward(blocks) == |blocks| * reward
  {
    if blocks != [] {
      var n := |blocks| - 1;
      ConstantReward(blocks[..n], reward);
      assert n * reward + reward == (n + 1) * reward;
    }
  }

  /** At the initial reward a fresh controller records exactly 368,934 blocks before the
      never-reset `epoch_emission` overflows u64, whatever the difficulty signal does. */
  lemma EpochEmissionHorizon(initialDifficulty: U64, blocks: seq<Block>)
    requires forall i :: 0 <= i < |blocks| ==> blocks[i].reward == INITIAL_REWARD
    requires TotalTx(blocks) <= U64_MAX && TotalBurned(blocks) <= U64_MAX
    ensures Run(Fresh(initialDifficulty), blocks).Some? <==> |blocks| <= 368_934
  {
    RunAccounting(Fresh(initialDifficulty), blocks);
    ConstantReward(blocks, INITIAL_REWARD);
  }

  predicate PointwiseSlower(slow: seq<Block>, fast: seq<Block>) {
    && |slow| == |fast|
    && forall i :: 0 <= i < |slow| ==>
         && slow[i].observed.Some? == fast[i].observed.Some?
         && (slow[i].observed.Some? ==> fast[i].observed.value <= slow[i].observed.value)
  }

  lemma {:induction false} DifficultyOrdered(d1: U64, d2: U64, fast: seq<Block>, slow: seq<Block>)
    requires d1 <= d2 && PointwiseSlower(slow, fast)
    ensures DifficultyAfter(d1, fast) <= DifficultyAfter(d2, slow)
  {
    if fast != [] {
      var n := |fast| - 1;
      DifficultyOrdered(d1, d2, fast[..n], slow[..n]);
      if fast[n].observed.Some? {
        TimeAdjustedMonotone(DifficultyAfter(d1, fast[..n]), DifficultyAfter(d2, slow[..n]),
                             fast[n].observed.value, slow[n].observed.value, TARGET_BLOCK_TIME_SECS);
      }
    }
  }

  /** Comparison theorem: a run that starts no harder and never sees a shorter gap is no harder at
      any step, whatever transactions, rewards and burns either run carries. */
  lemma RunsStayOrdered(s1: State, s2: State, fast: seq<Block>, slow: seq<Block>, k: nat)
    requires s1.difficulty <= s2.difficulty && PointwiseSlower(slow, fast)
    requires k <= |fast|
    requires Run(s1, fast[..k]).Some? && Run(s2, slow[..k]).Some?
    ensures Run(s1, fast[..k]).value.difficulty <= Run(s2, slow[..k]).value.difficulty
  {
    RunAccounting(s1, fast[..k]);
    RunAccounting(s2, slow[..k]);
    DifficultyOrdered(s1.difficulty, s2.difficulty, fast[..k], slow[..k]);
  }

  /** Stuffing or starving blocks cannot move difficulty: equal gaps give equal difficulty. */
  lemma DifficultyIgnoresLoad(s1: State, s2: State, b1: seq<Block>, b2: seq<Block>)
    requires s1.difficulty == s2.difficulty && |b1| == |b2|
    requires forall i :: 0 <= i < |b1| ==> b1[i].observed == b2[i].observed
    requires Run(s1, b1).Some? && Run(s2, b2).Some?
    ensures Run(s1, b1).value.difficulty == Run(s2, b2).value.difficulty
  {
    assert b1[..|b1|] == b1 && b2[..|b2|] == b2;
    RunsStayOrdered(s1, s2, b1, b2, |b1|);
    RunsStayOrdered(s2, s1, b2, b1, |b1|);
  }

  // ----- exact closed forms at the clamps -----

  predicate AllSlow(blocks: seq<Block>) {
    forall i :: 0 <= i < |blocks| ==>
      blocks[i].observed.Some? && blocks[i].observed.value >= 2 * TARGET_BLOCK_TIME_SECS
  }

  predicate AllFast(blocks: seq<Block>) {
    forall i :: 0 <= i < |blocks| ==>
      blocks[i].observed.Some? && 2 * blocks[i].observed.value <= TARGET_BLOCK_TIME_SECS
  }

  lemma AdjustAtClamps(d: U64, secs: U64)
    requires MIN_DIFFICULTY <= d <= MAX_DIFFICULTY
    ensures secs >= 2 * TARGET_BLOCK_TIME_SECS ==> Adjust(d, Some(secs)) == Min(MAX_DIFFICULTY, 2 * d)
    ensures 2 * secs <= TARGET_BLOCK_TIME_SECS ==> Adjust(d, Some(secs)) == Max(MIN_DIFFICULTY, d / 2)
  {
    ObservedCapIsInert(d, secs, TARGET_BLOCK_TIME_SECS);
    MultiplierExtremes(secs, TARGET_BLOCK_TIME_SECS);
  }

  lemma DoubleCapped(max: nat, p: nat, d: nat)
    ensures Min(max, 2 * Min(max, p * d)) == Min(max, (2 * p) * d)
  {
    assert (2 * p) * d == 2 * (p * d);
  }

  /** Self-healing: k slow blocks ease the difficulty to exactly min(MAX, 2^k d). */
  lemma {:induction false} SlowRunDoubles(d: U64, blocks: seq<Block>)
    requires MIN_DIFFICULTY <= d <= MAX_DIFFICULTY && AllSlow(blocks)
    ensures DifficultyAfter(d, blocks) == Min(MAX_DIFFICULTY, Pow2(|blocks|) * d)
  {
    if blocks != [] {
      var n := |blocks| - 1;
      SlowRunDoubles(d, blocks[..n]);
      MulLe(1, Pow2(n), d);
      AdjustAtClamps(DifficultyAfter(d, blocks[..n]), blocks[n].observed.value);
      DoubleCapped(MAX_DIFFICULTY, Pow2(n), d);
    }
  }

  lemma HalveFloored(d: nat, p: nat)
    requires p > 0
    ensures 0 <= d / p <= d && 0 <= d / (2 * p)
    ensures Max(MIN_DIFFICULTY, Max(MIN_DIFFICULTY, d / p) / 2) == Max(MIN_DIFFICULTY, d / (2 * p))
  {
    QuotientBelow(d, p);
    HalveDiv(d, p);
  }

  /** Hardening: k fast blocks harden the difficulty to exactly max(MIN, floor(d / 2^k)). */
  lemma {:induction false} FastRunHalves(d: U64, blocks: seq<Block>)
    requires MIN_DIFFICULTY <= d <= MAX_DIFFICULTY && AllFast(blocks)
    ensures DifficultyAfter(d, blocks) == Max(MIN_DIFFICULTY, d / Pow2(|blocks|))
  {
    if blocks == [] {
      DivIs(d, 1, d);
    } else {
      var n := |blocks| - 1;
      FastRunHalves(d, blocks[..n]);
      HalveFloored(d, Pow2(n));
      AdjustAtClamps(DifficultyAfter(d, blocks[..n]), blocks[n].observed.value);
    }
  }

  lemma {:induction false} Pow2Grows(k: nat)
    requires k >= 64
    ensures Pow2(k) > U64_MAX
  {
    if k > 64 {
      Pow2Grows(k - 1);
    } else {
      assert Pow2(4) == 16;
      Pow2Adds(4, 4);
      Pow2Adds(8, 8);
      Pow2Adds(16, 16);
      Pow2Adds(32, 32);
    }
  }

  /** Either bound is reached within 64 consecutive clamped blocks, from anywhere in range. */
  lemma BoundsReachedIn64(d: U64, blocks: seq<Block>)
    requires MIN_DIFFICULTY <= d <= MAX_DIFFICULTY && |blocks| >= 64
    ensures AllSlow(blocks) ==> DifficultyAfter(d, blocks) == MAX_DIFFICULTY
    ensures AllFast(blocks) ==> DifficultyAfter(d, blocks) == MIN_DIFFICULTY
  {
    var p := Pow2(|blocks|);
    Pow2Grows(|blocks|);
    if AllSlow(blocks) {
      SlowRunDoubles(d, blocks);
      MulLe(1, d, p);
      assert p * d == d * p >= p;
    }
    if AllFast(blocks) {
      FastRunHalves(d, blocks);
      DivIs(d, p, 0);
    }
  }
}
