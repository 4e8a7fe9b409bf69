/**
 The byte strings hashed into consensus identities: `MintingTx::hash`, `LotteryOutput::hash` and the
 36-byte UTXO identifier.  SHA-256 itself is foreign; a hash commits to its preimage.
 */
module Preimages {
  import opened Machine

  type Bytes = seq<U8>
  type Bytes32 = s: Bytes | |s| == 32 witness seq(32, _ => 0)
  type UtxoId = s: Bytes | |s| == 36 witness seq(36, _ => 0)

  // ----- fixed-width little-endian integers -----

  function Pow256(k: nat): (r: nat)
    ensures r > 0
  {
    if k == 0 then 1 else 256 * Pow256(k - 1)
  }

  /** `to_le_bytes` at width `k`. */
  function ToLe(n: nat, k: nat): (r: Bytes)
    ensures |r| == k
  {
    if k == 0 then [] else [n % 256] + ToLe(n / 256, k - 1)
  }

  /** `from_le_bytes`. */
  function FromLe(s: Bytes): nat {
    if s == [] then 0 else s[0] + 256 * FromLe(s[1..])
  }

  lemma {:induction false} FromToLe(n: nat, k: nat)
    requires n < Pow256(k)
    ensures FromLe(ToLe(n, k)) == n
  {
    if k > 0 {
      FromToLe(n / 256, k - 1);
      assert ToLe(n, k)[1..] == ToLe(n / 256, k - 1);
    }
  }

  lemma {:induction false} ToFromLe(s: Bytes)
    ensures FromLe(s) < Pow256(|s|)
    ensures ToLe(FromLe(s), |s|) == s
  {
    if s != [] {
      ToFromLe(s[1..]);
      var rest := FromLe(s[1..]);
      assert (s[0] + 256 * rest) % 256 == s[0] && (s[0] + 256 * rest) / 256 == rest;
      assert s == [s[0]] + s[1..];
    }
  }

  lemma Widths()
    ensures Pow256(4) == U32_MAX + 1 && Pow256(8) == U64_MAX + 1
  {
    assert Pow256(2) == 0x1_0000;
    assert Pow256(4) == 0x1_0000_0000;
    assert Pow256(6) == 0x1_0000_0000_0000;
  }

  function U64Bytes(n: U64): (r: Bytes)
    ensures |r| == 8
  {
    ToLe(n, 8)
  }

  lemma U64Injective(m: U64, n: U64)
    ensures U64Bytes(m) == U64Bytes(n) <==> m == n
  {
    Widths();
    FromToLe(m, 8);
    FromToLe(n, 8);
  }

  lemma U32Injective(m: U32, n: U32)
    ensures ToLe(m, 4) == ToLe(n, 4) <==> m == n
  {
    Widths();
    FromToLe(m, 4);
    FromToLe(n, 4);
  }

  /** Equal concatenations of equally long parts have equal parts. */
  lemma SplitEqual(a: Bytes, b: Bytes, c: Bytes, d: Bytes)
    requires |a| == |c|
    ensures a + b == c + d <==> a == c && b == d
  {
    if a + b == c + d {
      assert a == (a + b)[..|a|] && c == (c + d)[..|a|];
      assert b == (a + b)[|a|..] && d == (c + d)[|a|..];
    }
  }

  /** What the hasher is fed for an optional ciphertext: nothing when absent. */
  function OptionalBytes(ct: Option<Bytes>): Bytes {
    if ct.Some? then ct.value else []
  }

  // ----- minting transactions -----

  datatype MintingTx = MintingTx(blockHeight: U64, reward: U64, viewKey: Bytes32, spendKey: Bytes32, targetKey: Bytes32,
                                 publicKey: Bytes32, kem: Option<Bytes>, prevHash: Bytes32, difficulty: U64,
                                 nonce: U64, timestamp: U64)

  function MintingHead(t: MintingTx): (r: Bytes)
    ensures |r| == 144
  {
    U64Bytes(t.blockHeight) + (U64Bytes(t.reward) + (t.viewKey + (t.spendKey + (t.targetKey + t.publicKey))))
  }

  function MintingTail(t: MintingTx): (r: Bytes)
    ensures |r| == 56
  {
    t.prevHash + (U64Bytes(t.difficulty) + (U64Bytes(t.nonce) + U64Bytes(t.timestamp)))
  }

  function MintingPreimage(t: MintingTx): Bytes {
    MintingHead(t) + (OptionalBytes(t.kem) + MintingTail(t))
  }

  lemma HeadInjective(a: MintingTx, b: MintingTx)
    ensures MintingHead(a) == MintingHead(b) <==>
            && a.blockHeight == b.blockHeight && a.reward == b.reward && a.viewKey == b.viewKey
            && a.spendKey == b.spendKey && a.targetKey == b.targetKey && a.publicKey == b.publicKey
  {
    U64Injective(a.blockHeight, b.blockHeight);
    U64Injective(a.reward, b.reward);
    var a4, b4 := a.targetKey + a.publicKey, b.targetKey + b.publicKey;
    SplitEqual(a.targetKey, a.publicKey, b.targetKey, b.publicKey);
    SplitEqual(a.spendKey, a4, b.spendKey, b4);
    SplitEqual(a.viewKey, a.spendKey + a4, b.viewKey, b.spendKey + b4);
    SplitEqual(U64Bytes(a.reward), a.viewKey + (a.spendKey + a4), U64Bytes(b.reward), b.viewKey + (b.spendKey + b4));
    SplitEqual(U64Bytes(a.blockHeight), U64Bytes(a.reward) + (a.viewKey + (a.spendKey + a4)),
               U64Bytes(b.blockHeight), U64Bytes(b.reward) + (b.viewKey + (b.spendKey + b4)));
  }

  lemma TailInjective(a: MintingTx, b: MintingTx)
    ensures MintingTail(a) == MintingTail(b) <==>
            a.prevHash == b.prevHash && a.difficulty == b.difficulty && a.nonce == b.nonce && a.timestamp == b.timestamp
  {
    U64Injective(a.difficulty, b.difficulty);
    U64Injective(a.nonce, b.nonce);
    U64Injective(a.timestamp, b.timestamp);
    var a2, b2 := U64Bytes(a.nonce) + U64Bytes(a.timestamp), U64Bytes(b.nonce) + U64Bytes(b.timestamp);
    SplitEqual(U64Bytes(a.nonce), U64Bytes(a.timestamp), U64Bytes(b.nonce), U64Bytes(b.timestamp));
    SplitEqual(U64Bytes(a.difficulty), a2, U64Bytes(b.difficulty), b2);
    SplitEqual(a.prevHash, U64Bytes(a.difficulty) + a2, b.prevHash, U64Bytes(b.difficulty) + b2);
  }

  /** Two minting transactions hash the same bytes exactly when they agree in every field, an absent
      ciphertext counting as an empty one: no other pair can be confused, although the ciphertext is
      unframed and in mid-stream. */
  lemma MintingPreimageInjective(a: MintingTx, b: MintingTx)
    ensures MintingPreimage(a) == MintingPreimage(b) <==>
            a.(kem := Some(OptionalBytes(a.kem))) == b.(kem := Some(OptionalBytes(b.kem)))
  {
    HeadInjective(a, b);
    TailInjective(a, b);
    var ca, cb := OptionalBytes(a.kem), OptionalBytes(b.kem);
    SplitEqual(MintingHead(a), ca + MintingTail(a), MintingHead(b), cb + MintingTail(b));
    if MintingPreimage(a) == MintingPreimage(b) {
      assert |ca + MintingTail(a)| == |cb + MintingTail(b)|;
      SplitEqual(ca, MintingTail(a), cb, MintingTail(b));
    }
  }

  // ----- lottery outputs -----

  datatype LotteryOutput = LotteryOutput(winnerTxHash: Bytes32, winnerIndex: U32, payout: U64, targetKey: Bytes32,
                                         publicKey: Bytes32, kem: Option<Bytes>)

  function WinnerUtxoId(o: LotteryOutput): UtxoId {
    o.winnerTxHash + ToLe(o.winnerIndex, 4)
  }

  function FromUtxoId(id: UtxoId, payout: U64, targetKey: Bytes32, publicKey: Bytes32,
                      kem: Option<Bytes>): LotteryOutput {
    Widths();
    ToFromLe(id[32..]);
    LotteryOutput(id[..32], FromLe(id[32..]), payout, targetKey, publicKey, kem)
  }

  function LotteryPreimage(o: LotteryOutput): Bytes {
    WinnerUtxoId(o) + (U64Bytes(o.payout) + (o.targetKey + (o.publicKey + OptionalBytes(o.kem))))
  }

  /** Identifier and fields determine each other. */
  lemma UtxoIdRoundTrip(id: UtxoId, o: LotteryOutput)
    ensures WinnerUtxoId(FromUtxoId(id, o.payout, o.targetKey, o.publicKey, o.kem)) == id
    ensures FromUtxoId(WinnerUtxoId(o), o.payout, o.targetKey, o.publicKey, o.kem) == o
  {
    Widths();
    ToFromLe(id[32..]);
    assert id == id[..32] + id[32..];
    FromToLe(o.winnerIndex, 4);
    var w := WinnerUtxoId(o);
    assert w[..32] == o.winnerTxHash && w[32..] == ToLe(o.winnerIndex, 4);
  }

  lemma LotteryPreimageInjective(a: LotteryOutput, b: LotteryOutput)
    ensures LotteryPreimage(a) == LotteryPreimage(b) <==>
            a.(kem := Some(OptionalBytes(a.kem))) == b.(kem := Some(OptionalBytes(b.kem)))
  {
    U32Injective(a.winnerIndex, b.winnerIndex);
    U64Injective(a.payout, b.payout);
    SplitEqual(a.winnerTxHash, ToLe(a.winnerIndex, 4), b.winnerTxHash, ToLe(b.winnerIndex, 4));
    var a1, b1 := a.publicKey + OptionalBytes(a.kem), b.publicKey + OptionalBytes(b.kem);
    SplitEqual(a.publicKey, OptionalBytes(a.kem), b.publicKey, OptionalBytes(b.kem));
    SplitEqual(a.targetKey, a1, b.targetKey, b1);
    SplitEqual(U64Bytes(a.payout), a.targetKey + a1, U64Bytes(b.payout), b.targetKey + b1);
    SplitEqual(WinnerUtxoId(a), U64Bytes(a.payout) + (a.targetKey + a1),
               WinnerUtxoId(b), U64Bytes(b.payout) + (b.targetKey + b1));
  }
}
