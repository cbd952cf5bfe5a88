/** The window of recent blocks: IncrementValidator of
    validator/increment/increment.go. */
module Increment {
  import opened Hashing

  type TxHash = Hash

  /** The transactions of consecutive blocks, the first at height baseHeight. */
  datatype Window = Window(blocks: seq<set<TxHash>>, baseHeight: nat)

  const CLEAN: Window := Window([], 0)

  /** The window after a block: blocks out of order are ignored, and at most
      maxBlocks are kept. */
  function AddTo(w: Window, maxBlocks: nat, height: nat, txs: set<TxHash>): Window {
    var base := if |w.blocks| == 0 then height else w.baseHeight;
    if base + |w.blocks| != height then w
    else if |w.blocks| > 0 && |w.blocks| >= maxBlocks then Window(w.blocks[1..] + [txs], base + 1)
    else Window(w.blocks + [txs], base)
  }

  /** No block of the window from height start on contains tx; false when the
      window begins later than that. */
  predicate Passes(w: Window, tx: TxHash, start: nat) {
    && w.baseHeight <= start
    && forall i :: start - w.baseHeight <= i < |w.blocks| ==> tx !in w.blocks[i]
  }

  /** The window that was given consecutive blocks, the first at the given height. */
  function Fed(maxBlocks: nat, height: nat, blocks: seq<set<TxHash>>): Window {
    if blocks == [] then CLEAN
    else AddTo(Fed(maxBlocks, height, Init(blocks)), maxBlocks, height + |blocks| - 1, Last(blocks))
  }

  lemma SnocSuffix(blocks: seq<set<TxHash>>, d: nat)
    requires d < |blocks|
    ensures Init(blocks)[d..] + [Last(blocks)] == blocks[d..]
  {
    assert Init(blocks) + [Last(blocks)] == blocks;
  }

  /** It holds the last maxBlocks of them. */
  lemma {:induction false} FedKeepsLast(maxBlocks: nat, height: nat, blocks: seq<set<TxHash>>)
    requires maxBlocks > 0 && blocks != []
    ensures var dropped := if |blocks| <= maxBlocks then 0 else |blocks| - maxBlocks;
            Fed(maxBlocks, height, blocks) == Window(blocks[dropped..], height + dropped)
    decreases |blocks|
  {
    if |blocks| == 1 {
      assert blocks[0..] == [Last(blocks)];
    } else {
      var before := Init(blocks);
      FedKeepsLast(maxBlocks, height, before);
      var d := if |before| <= maxBlocks then 0 else |before| - maxBlocks;
      SnocSuffix(blocks, d);
      if |before| >= maxBlocks {
        SnocSuffix(blocks, d + 1);
        assert before[d..][1..] == before[d + 1..];
      }
    }
  }

  /** A block out of order changes nothing. */
  lemma OutOfOrder(w: Window, maxBlocks: nat, height: nat, txs: set<TxHash>)
    requires w.blocks != [] && height != w.baseHeight + |w.blocks|
    ensures AddTo(w, maxBlocks, height, txs) == w
  {
  }

  class IncrementValidator {
    var blocks: seq<set<TxHash>>
    var baseHeight: nat
    const maxBlocks: nat

    ghost function View(): Window
      reads this
    {
      Window(blocks, baseHeight)
    }

    constructor (max: int)
      ensures View() == CLEAN && maxBlocks == if max <= 0 then 20 else max
    {
      blocks, baseHeight := [], 0;
      maxBlocks := if max <= 0 then 20 else max;
    }

    method Clean()
      modifies this
      ensures View() == CLEAN
    {
      blocks, baseHeight := [], 0;
    }

    method BlockRange() returns (start: nat, end: nat)
      ensures start == View().baseHeight && end == start + |View().blocks|
    {
      return baseHeight, baseHeight + |blocks|;
    }

    method AddBlock(height: nat, transactions: seq<TxHash>)
      requires maxBlocks > 0
      modifies this
      ensures View() == AddTo(old(View()), maxBlocks, height, set t | t in transactions)
    {
      if |blocks| == 0 {
        baseHeight := height;
      }
      if baseHeight + |blocks| != height {
        return;
      }
      if |blocks| >= maxBlocks {
        blocks := blocks[1..];
        baseHeight := baseHeight + 1;
      }
      var txHashes: set<TxHash> := {};
      for i := 0 to |transactions|
        invariant txHashes == set t | t in transactions[..i]
      {
        txHashes := txHashes + {transactions[i]};
      }
      assert transactions[..|transactions|] == transactions;
      blocks := blocks + [txHashes];
    }

    method Verify(tx: TxHash, startHeight: nat) returns (ok: bool)
      ensures ok <==> Passes(View(), tx, startHeight)
    {
      if startHeight < baseHeight {
        return false;
      }
      var i := startHeight - baseHeight;
      while i < |blocks|
        invariant startHeight - baseHeight <= i
        invariant forall j :: startHeight - baseHeight <= j < i && j < |blocks| ==> tx !in blocks[j]
      {
        if tx in blocks[i] {
          return false;
        }
        i := i + 1;
      }
      return true;
    }
  }
}
