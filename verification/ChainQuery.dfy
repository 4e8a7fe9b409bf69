/**
 Chain reads by the thin wallet.  The wallet asks for outputs between two heights; the node's
 `chain_getOutputs` handler answers with `start..=end` (botho/src/rpc/mod.rs:1706) while the wallet's
 callers are written for `start..end`.  Both readings are modelled.
 */
module ChainQuery {
  import opened Machine
  import opened Candidates

  /** One output as the node reports it; `None` is a field that does not decode to its fixed width. */
  datatype RpcOutput = RpcOutput(txHash: Option<nat>, outputIndex: U32, targetKey: Option<Key>,
                                 publicKey: Option<Key>, amount: Option<U64>, kemCiphertext: Option<nat>)

  /** The blocks the node holds, by height. */
  type Chain = map<U64, seq<RpcOutput>>

  datatype BlockOutputs = BlockOutputs(height: U64, outputs: seq<RpcOutput>)

  datatype RangeEnd = HalfOpen | Inclusive

  /** The blocks at heights in [start, stop), in order, absent heights skipped. */
  function Blocks(chain: Chain, start: nat, stop: nat): seq<BlockOutputs>
    decreases stop - start
  {
    if start >= stop then []
    else
      (if start <= U64_MAX && start in chain then [BlockOutputs(start, chain[start])] else [])
      + Blocks(chain, start + 1, stop)
  }

  /** One past the last height a query for `end` returns. */
  function Stop(end: nat, convention: RangeEnd): nat {
    if convention.Inclusive? then end + 1 else end
  }

  function GetOutputs(chain: Chain, start: nat, end: nat, convention: RangeEnd): seq<BlockOutputs> {
    Blocks(chain, start, Stop(end, convention))
  }

  lemma {:induction false} BlocksSplit(chain: Chain, a: nat, b: nat, c: nat)
    requires a <= b <= c
    ensures Blocks(chain, a, c) == Blocks(chain, a, b) + Blocks(chain, b, c)
    decreases b - a
  {
    if a < b {
      BlocksSplit(chain, a + 1, b, c);
    }
  }

  lemma {:induction false} BlocksHeights(chain: Chain, a: nat, b: nat, i: nat)
    requires i < |Blocks(chain, a, b)|
    ensures var block := Blocks(chain, a, b)[i];
            a <= block.height < b && block.height in chain && block.outputs == chain[block.height]
    decreases b - a
  {
    var first := if a <= U64_MAX && a in chain then 1 else 0;
    if i >= first {
      BlocksHeights(chain, a + 1, b, i - first);
    }
  }
}
