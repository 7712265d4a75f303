/**
 Text files written as consecutive blocks of lines: where each block starts
 once the blocks are laid end to end.
 */
module LineBlocks {
  import opened Strings

  /** The blocks laid end to end. */
  function Flatten(blocks: seq<seq<string>>): seq<string>
    decreases |blocks|
  {
    if |blocks| == 0 then [] else blocks[0] + Flatten(blocks[1..])
  }

  /** The line at which block `k` starts: the sizes of the blocks before it added up. */
  function BlockStart(blocks: seq<seq<string>>, k: nat): nat
    requires k <= |blocks|
    decreases k
  {
    if k == 0 then 0 else |blocks[0]| + BlockStart(blocks[1..], k - 1)
  }

  lemma {:induction false} FlattenLength(blocks: seq<seq<string>>)
    ensures |Flatten(blocks)| == BlockStart(blocks, |blocks|)
    decreases |blocks|
  {
    if |blocks| > 0 {
      FlattenLength(blocks[1..]);
    }
  }

  /** Line `i` of block `k` is line `BlockStart(blocks, k) + i` of the whole. */
  lemma {:induction false} FlattenAt(blocks: seq<seq<string>>, k: nat, i: nat)
    requires k < |blocks| && i < |blocks[k]|
    ensures BlockStart(blocks, k) + i < |Flatten(blocks)|
    ensures Flatten(blocks)[BlockStart(blocks, k) + i] == blocks[k][i]
    decreases k
  {
    if k > 0 {
      assert blocks[1..][k - 1] == blocks[k];
      FlattenAt(blocks[1..], k - 1, i);
    }
  }

  lemma {:induction false} BlockFits(blocks: seq<seq<string>>, k: nat)
    requires k < |blocks|
    ensures BlockStart(blocks, k) + |blocks[k]| <= |Flatten(blocks)|
    decreases k
  {
    if k > 0 {
      assert blocks[1..][k - 1] == blocks[k];
      BlockFits(blocks[1..], k - 1);
    }
  }

  /** Block `k` appears whole in the flattened lines, from its start on. */
  lemma BlockLines(blocks: seq<seq<string>>, k: nat)
    requires k < |blocks|
    ensures BlockStart(blocks, k) + |blocks[k]| <= |Flatten(blocks)|
    ensures forall i :: 0 <= i < |blocks[k]| ==> Flatten(blocks)[BlockStart(blocks, k) + i] == blocks[k][i]
  {
    BlockFits(blocks, k);
    forall i | 0 <= i < |blocks[k]|
      ensures Flatten(blocks)[BlockStart(blocks, k) + i] == blocks[k][i]
    {
      FlattenAt(blocks, k, i);
    }
  }

  lemma {:induction false} FlattenSingleLine(blocks: seq<seq<string>>)
    requires forall k :: 0 <= k < |blocks| ==> AllSingleLine(blocks[k])
    ensures AllSingleLine(Flatten(blocks))
    decreases |blocks|
  {
    if |blocks| > 0 {
      FlattenSingleLine(blocks[1..]);
      AllSingleLineAppend(blocks[0], Flatten(blocks[1..]));
    }
  }
}
