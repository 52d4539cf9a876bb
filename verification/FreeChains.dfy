/** The list of free blocks, threaded through the blocks themselves, and the nodes that a row of blocks holds. */
module FreeChains {
  import opened Blueprints
  import opened Shapes
  import opened Blocks
  import opened NodeBlocks

  ghost function After(chain: seq<nat>, i: nat): nat {
    if i + 1 < |chain| then chain[i + 1] else 0
  }

  /** From freeId, through the blocks, the ids of chain and then 0: no id twice, none of them the root's or in use. */
  ghost predicate Chained(blocks: seq<Block>, freeId: nat, chain: seq<nat>) {
    && freeId == (if chain == [] then 0 else chain[0])
    && (forall i :: 0 <= i < |chain| ==> 0 < chain[i] < |blocks| && LinksTo(blocks[chain[i]], After(chain, i)))
    && (forall i, j :: 0 <= i < j < |chain| ==> chain[i] != chain[j])
  }

  ghost predicate LinksTo(block: Block, next: nat) {
    !InUse(block) && NextFree(block) == next
  }

  /** Each block is in use, handed out, or in the chain: exactly one of the three. */
  ghost predicate Accounted(blocks: seq<Block>, chain: seq<nat>, outstanding: set<nat>) {
    && (forall id: nat :: id < |blocks| ==> (!InUse(blocks[id]) <==> id in chain || id in outstanding))
    && (forall id :: id in outstanding ==> id < |blocks| && id !in chain)
  }

  /** The ids met when following the free blocks from id. */
  ghost function Followed(blocks: seq<Block>, id: nat, fuel: nat): seq<nat>
    decreases fuel
  {
    if id == 0 || id >= |blocks| || fuel == 0 then []
    else [id] + Followed(blocks, NextFree(blocks[id]), fuel - 1)
  }

  /** Following the free blocks meets exactly the chain, and then ends by itself. */
  lemma {:induction false} FollowedIsChain(blocks: seq<Block>, freeId: nat, chain: seq<nat>, fuel: nat)
    requires Chained(blocks, freeId, chain) && |chain| <= fuel
    ensures Followed(blocks, freeId, fuel) == chain
    decreases fuel
  {
    hide InUse, NextFree, Chained;
    ChainStart(blocks, freeId, chain);
    if chain != [] {
      ChainTail(blocks, freeId, chain);
      FollowedIsChain(blocks, After(chain, 0), chain[1..], fuel - 1);
    }
  }

  /** No chain is longer than the file. */
  lemma ChainFits(blocks: seq<Block>, freeId: nat, chain: seq<nat>)
    requires Chained(blocks, freeId, chain)
    ensures |chain| <= |blocks|
  {
    DistinctBelow(chain, |blocks|);
  }

  lemma {:induction false} DistinctBelow(s: seq<nat>, n: nat)
    requires forall i :: 0 <= i < |s| ==> s[i] < n
    requires forall i, j :: 0 <= i < j < |s| ==> s[i] != s[j]
    ensures |s| <= n
    decreases n
  {
    if s != [] {
      assert s[0] < n;
      if i :| 0 <= i < |s| && s[i] == n - 1 {
        DistinctBelow(s[..i] + s[i + 1..], n - 1);
      } else {
        DistinctBelow(s, n - 1);
      }
    }
  }

  lemma ChainTail(blocks: seq<Block>, freeId: nat, chain: seq<nat>)
    requires Chained(blocks, freeId, chain) && chain != []
    ensures Chained(blocks, After(chain, 0), chain[1..])
    ensures freeId !in chain[1..] && 0 < freeId < |blocks| && LinksTo(blocks[freeId], After(chain, 0))
  {
    var rest := chain[1..];
    forall i | 0 <= i < |rest| ensures 0 < rest[i] < |blocks| && LinksTo(blocks[rest[i]], After(rest, i)) {
      assert rest[i] == chain[i + 1] && After(rest, i) == After(chain, i + 1);
    }
  }

  lemma ChainStart(blocks: seq<Block>, freeId: nat, chain: seq<nat>)
    requires Chained(blocks, freeId, chain)
    ensures freeId == if chain == [] then 0 else chain[0]
  {
  }

  lemma ChainPush(blocks: seq<Block>, freeId: nat, chain: seq<nat>, id: nat, block: Block)
    requires Chained(blocks, freeId, chain) && 0 < id < |blocks| && id !in chain && LinksTo(block, freeId)
    ensures Chained(blocks[id := block], id, [id] + chain)
  {
    var more := [id] + chain;
    var after := blocks[id := block];
    forall i | 0 <= i < |more| ensures 0 < more[i] < |after| && LinksTo(after[more[i]], After(more, i)) {
      if i > 0 {
        assert more[i] == chain[i - 1] && After(more, i) == After(chain, i - 1);
      }
    }
  }

  lemma ChainKept(blocks: seq<Block>, freeId: nat, chain: seq<nat>, id: nat, block: Block)
    requires Chained(blocks, freeId, chain) && id < |blocks| && id !in chain
    ensures Chained(blocks[id := block], freeId, chain)
  {
  }

  lemma ChainBelow(blocks: seq<Block>, freeId: nat, chain: seq<nat>)
    requires Chained(blocks, freeId, chain)
    ensures forall i :: 0 <= i < |chain| ==> chain[i] < |blocks|
    ensures After(chain, 0) <= |blocks|
  {
  }

  lemma ChainAppend(blocks: seq<Block>, freeId: nat, chain: seq<nat>, block: Block)
    requires Chained(blocks, freeId, chain)
    ensures Chained(blocks + [block], freeId, chain)
  {
  }

  lemma AccountedTake(blocks: seq<Block>, chain: seq<nat>, outstanding: set<nat>)
    requires Accounted(blocks, chain, outstanding) && chain != [] && chain[0] !in chain[1..] && chain[0] < |blocks|
    ensures Accounted(blocks, chain[1..], outstanding + {chain[0]}) && chain[0] !in outstanding
  {
    assert chain == [chain[0]] + chain[1..];
  }

  lemma AccountedPush(blocks: seq<Block>, chain: seq<nat>, outstanding: set<nat>, id: nat, block: Block)
    requires Accounted(blocks, chain, outstanding) && id < |blocks| && id !in chain && !InUse(block)
    ensures Accounted(blocks[id := block], [id] + chain, outstanding - {id})
  {
  }

  lemma AccountedUse(blocks: seq<Block>, chain: seq<nat>, outstanding: set<nat>, id: nat, block: Block)
    requires Accounted(blocks, chain, outstanding) && id < |blocks| && id !in chain && InUse(block)
    ensures Accounted(blocks[id := block], chain, outstanding - {id})
  {
  }

  lemma AccountedAppend(blocks: seq<Block>, chain: seq<nat>, outstanding: set<nat>, block: Block)
    requires Accounted(blocks, chain, outstanding) && !InUse(block)
    requires forall i :: 0 <= i < |chain| ==> chain[i] < |blocks|
    ensures Accounted(blocks + [block], chain, outstanding + {|blocks|}) && |blocks| !in outstanding
  {
  }

  // ---- the nodes in a row of blocks ----

  ghost predicate AllDecodable(L: Layout, blocks: seq<Block>) {
    forall id :: 0 <= id < |blocks| && InUse(blocks[id]) ==> Decodable(L, blocks[id])
  }

  ghost function NodesIn(L: Layout, blocks: seq<Block>): Store<Value>
    requires AllDecodable(L, blocks)
  {
    map id: nat | id < |blocks| && InUse(blocks[id]) :: Decoded(L, id, blocks[id])
  }

  lemma UnknownId(L: Layout, blocks: seq<Block>)
    requires AllDecodable(L, blocks)
    ensures forall id :: id in NodesIn(L, blocks) ==> id < |blocks| && InUse(blocks[id])
  {
  }

  lemma NodesAfterUse(L: Layout, blocks: seq<Block>, id: nat, block: Block)
    requires AllDecodable(L, blocks) && id < |blocks| && InUse(block) && Decodable(L, block)
    ensures AllDecodable(L, blocks[id := block])
    ensures NodesIn(L, blocks[id := block]) == NodesIn(L, blocks)[id := Decoded(L, id, block)]
  {
    hide Decodable, Decoded, InUse;
  }

  lemma NodesAfterFree(L: Layout, blocks: seq<Block>, id: nat, block: Block)
    requires AllDecodable(L, blocks) && id < |blocks| && !InUse(block)
    ensures AllDecodable(L, blocks[id := block])
    ensures NodesIn(L, blocks[id := block]) == NodesIn(L, blocks) - {id}
  {
    hide Decodable, Decoded, InUse;
  }

  lemma NodesAfterAppend(L: Layout, blocks: seq<Block>, block: Block)
    requires AllDecodable(L, blocks) && !InUse(block)
    ensures AllDecodable(L, blocks + [block])
    ensures NodesIn(L, blocks + [block]) == NodesIn(L, blocks)
  {
    hide Decodable, Decoded, InUse;
  }

  lemma NodesAfterTruncate(L: Layout, blocks: seq<Block>, n: nat)
    requires AllDecodable(L, blocks) && n <= |blocks|
    requires forall id :: n <= id < |blocks| ==> !InUse(blocks[id])
    ensures AllDecodable(L, blocks[..n])
    ensures NodesIn(L, blocks[..n]) == NodesIn(L, blocks)
  {
    hide Decodable, Decoded, InUse;
  }
}
