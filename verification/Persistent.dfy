/** The storage in a file: nodes in equal blocks, free blocks in a list, depth and list head in the metadata. */
module Persistent {
  import opened Bytes
  import opened Blueprints
  import opened Serializers
  import opened Shapes
  import opened Blocks
  import opened NodeBlocks
  import opened FreeChains

  datatype Status = Done | MissingNode | EndOfFile | RootNotRemovable | BlockInUse | NoFreeBlock

  /** File offsets are signed 64-bit integers. */
  const MAX_FILE: nat := 0x7FFF_FFFF_FFFF_FFFF

  const NO_FREE_ID: nat := 0

  ghost function Halved(n: nat, k: nat): nat {
    if k == 0 then n else 2 * Halved(n, k - 1)
  }

  /** The size of a block: that of the node; or the least number of disk blocks that hold it; or a disk block halved
      as often as the node and parity allow. */
  ghost predicate Padding(nodeSize: int, blockSize: int, padded: nat) {
    && nodeSize <= padded
    && (blockSize <= 1 ==> padded == nodeSize)
    && (1 < blockSize <= nodeSize ==> padded % blockSize == 0 && padded - nodeSize < blockSize)
    && (nodeSize < blockSize && 1 < blockSize ==>
          && (exists k: nat :: Halved(padded, k) == blockSize)
          && (padded % 2 == 1 || padded < 2 * nodeSize))
  }

  /** One size is left by that. */
  lemma OnePadding(nodeSize: int, blockSize: int, p: nat, q: nat)
    requires nodeSize > 0 && Padding(nodeSize, blockSize, p) && Padding(nodeSize, blockSize, q)
    ensures p == q
  {
    if 1 < blockSize <= nodeSize {
      SameMultiple(p, q, blockSize);
    } else if 1 < blockSize {
      var k: nat :| Halved(p, k) == blockSize;
      var l: nat :| Halved(q, l) == blockSize;
      SameHalving(nodeSize, p, k, q, l);
    }
  }

  lemma SameMultiple(p: nat, q: nat, d: nat)
    requires d > 0 && p % d == 0 && q % d == 0 && p - q < d && q - p < d
    ensures p == q
  {
    var x, y := p / d, q / d;
    assert p == d * x && q == d * y;
    Difference(d, x, y);
    AtLeastOnce(d, x - y);
  }

  lemma Difference(d: int, x: int, y: int)
    ensures d * (x - y) == d * x - d * y
  {
  }

  lemma {:induction false} SameHalving(n: nat, p: nat, k: nat, q: nat, l: nat)
    requires n > 0 && n <= p && n <= q && Halved(p, k) == Halved(q, l)
    requires (p % 2 == 1 || p < 2 * n) && (q % 2 == 1 || q < 2 * n)
    ensures p == q
    decreases k + l
  {
    if k > 0 && l > 0 {
      SameHalving(n, p, k - 1, q, l - 1);
    } else if k > 0 {
      HalvedGrows(p, k - 1);
    } else if l > 0 {
      HalvedGrows(q, l - 1);
    }
  }

  lemma {:induction false} HalvedGrows(n: nat, k: nat)
    ensures n <= Halved(n, k)
  {
    if k > 0 {
      HalvedGrows(n, k - 1);
    }
  }

  method CalculatePaddedNodeSize(nodeSize: nat, blockSize: int) returns (padded: nat)
    requires nodeSize > 0
    ensures Padding(nodeSize, blockSize, padded)
    ensures padded <= nodeSize + if blockSize > 0 then blockSize else 0
  {
    if blockSize <= 1 {
      padded := nodeSize;
    } else if nodeSize >= blockSize {
      var blocksPerNode := nodeSize / blockSize;
      var remaining := nodeSize % blockSize;
      if remaining > 0 {
        blocksPerNode := blocksPerNode + 1;
      }
      padded := blocksPerNode * blockSize;
      WholeBlocks(nodeSize, blockSize, blocksPerNode);
    } else {
      padded := blockSize;
      ghost var k: nat := 0;
      while padded / nodeSize > 1 && padded % 2 == 0
        invariant nodeSize <= padded <= blockSize && Halved(padded, k) == blockSize
        decreases padded
      {
        TwiceInside(padded, nodeSize);
        HalvedStep(padded / 2, k);
        padded := padded / 2;
        k := k + 1;
      }
      TwiceInside(padded, nodeSize);
    }
  }

  lemma WholeBlocks(n: nat, d: nat, q: nat)
    requires d > 0 && q == n / d + if n % d > 0 then 1 else 0
    ensures q * d % d == 0 && n <= q * d < n + d
  {
    assert n == d * (n / d) + n % d;
    assert q * d == d * (n / d) + if n % d > 0 then d else 0 by {
      assert (n / d + 1) * d == d * (n / d) + d;
    }
    Multiple(q, d);
  }

  lemma Multiple(q: nat, d: nat)
    requires d > 0
    ensures q * d % d == 0
  {
    Cancelled(d, q);
    assert q * d == d * (q * d / d) + q * d % d;
  }

  lemma TwiceInside(p: nat, n: nat)
    requires n > 0
    ensures p / n > 1 <==> p >= 2 * n
  {
    var q := p / n;
    assert p == n * q + p % n;
    if q > 1 {
      assert n * q >= n * 2;
    } else {
      assert q == 0 || q == 1;
    }
  }

  lemma {:induction false} HalvedStep(n: nat, k: nat)
    ensures Halved(n, k + 1) == Halved(2 * n, k)
    decreases k
  {
    if k > 0 {
      HalvedStep(n, k - 1);
    }
  }

  lemma MetadataPatched(s: seq<byte>, x: seq<byte>, y: seq<byte>, data: seq<byte>)
    requires |s| >= 16 && |x| == |y| == |data| == 8 && s[|s| - 16..] == x + y
    ensures Patched(s, |s| - 16, data)[|s| - 16..] == data + y
    ensures Patched(s, |s| - 8, data)[|s| - 16..] == x + data
    ensures Patched(s, |s| - 16, data)[..|s| - 16] == s[..|s| - 16] == Patched(s, |s| - 8, data)[..|s| - 16]
  {
    var m := |s|;
    assert s[m - 8..] == s[m - 16..][8..] == y;
    assert s[m - 16..m - 8] == s[m - 16..][..8] == x;
  }

  lemma IdFits(L: Layout, file: seq<byte>, blocks: seq<Block>, id: nat)
    requires SoundLayout(L) && Mirrors(L, file, blocks) && |file| <= MAX_FILE && id <= |blocks|
    ensures id < Pow256(8)
  {
    hide Sound;
    SoundParts(L);
    TimesIsProduct(L.padded, |blocks|);
    assert L.padded * |blocks| >= |blocks|;
    EightBytes();
  }

  lemma FreedLinks(block: Block, next: nat)
    requires |block| >= 9 && next < Pow256(8)
    ensures LinksTo(Patched(Patched(block, 0, [0]), 1, ToBytes(next, 8)), next)
  {
    FromToBytes(next, 8);
    PatchAt(Patched(block, 0, [0]), 1, ToBytes(next, 8));
  }

  lemma NewMetadata(header: seq<byte>, x: seq<byte>, y: seq<byte>)
    requires |x| == |y| == 8
    ensures var s := header + x + y; s[|header|..] == x + y && s[..|header|] == header
  {
  }

  lemma SmallFits(n: nat)
    requires n <= 1
    ensures n < Pow256(8)
  {
    assert Pow256(8) == 256 * Pow256(7);
  }

  /** One byte for the flag, a length and b - 1 entries, a length and b ids of eight bytes. */
  function NodeBytes(b: nat, key: Blueprint, value: Blueprint): int {
    1 + (4 + (b - 1) * (Size(key) + Size(value))) + (4 + 8 * b)
  }

  lemma NodeSizeIs(L: Layout)
    requires L.b > 0
    ensures NodeSize(L) == NodeBytes(L.b, L.key, L.value)
  {
    var n := Size(L.key) + Size(L.value);
    TimesIsProduct(n, L.b - 1);
    TimesIsProduct(8, L.b);
    assert Size(ValuesBp(L)) == Times(n, L.b - 1) + 4 && Size(ChildrenBp(L)) == Times(8, L.b) + 4;
    Commuted(n, L.b - 1);
  }

  lemma Commuted(x: int, y: int)
    ensures x * y == y * x
  {
  }

  /** The room of a node depends on b and the entries alone. */
  lemma SameSize(L: Layout, base: nat, padded: nat)
    requires L.b > 0
    ensures NodeSize(L.(base := base, padded := padded)) == NodeSize(L)
  {
  }

  class PersistentStorage {
    const layout: Layout
    var file: seq<byte>
    var depth: nat
    var freeId: nat
    ghost var blocks: seq<Block>
    /** The free blocks, in the order in which they will be handed out again. */
    ghost var chain: seq<nat>
    /** The ids handed out but not written yet. */
    ghost var outstanding: set<nat>

    ghost predicate MetadataAgrees()
      reads this`file, this`depth, this`freeId
    {
      && layout.base >= 16 && |file| >= layout.base
      && depth < Pow256(8) && freeId < Pow256(8)
      && file[..layout.base][layout.base - 16..] == ToBytes(depth, 8) + ToBytes(freeId, 8)
    }

    /** The file is made of metadata and whole blocks. */
    ghost predicate Placed()
      reads this`file, this`depth, this`freeId, this`blocks
    {
      SoundLayout(layout) && |file| <= MAX_FILE && Mirrors(layout, file, blocks) && MetadataAgrees()
    }

    ghost predicate Framed()
      reads this`file, this`depth, this`freeId, this`blocks
    {
      Placed() && AllDecodable(layout, blocks)
    }

    ghost predicate Valid()
      reads this
    {
      && Framed()
      && Chained(blocks, freeId, chain)
      && Accounted(blocks, chain, outstanding)
    }

    /** The stored nodes. */
    ghost function Nodes(): Store<Value>
      requires Framed()
      reads this`file, this`depth, this`freeId, this`blocks
    {
      NodesIn(layout, blocks)
    }

    /** What stands before the metadata. */
    ghost function Header(): seq<byte>
      reads this`file
    {
      if 16 <= layout.base <= |file| then file[..layout.base][..layout.base - 16] else []
    }

    // ---- a new file ----

    /** Header, metadata and an empty root. */
    constructor (layout: Layout, header: seq<byte>)
      requires SoundLayout(layout) && |header| + 16 == layout.base && layout.base + layout.padded <= MAX_FILE
      ensures Valid() && this.layout == layout && Header() == header
      ensures depth == 1 && chain == [] && outstanding == {} && |file| == layout.base + layout.padded
      ensures file[..layout.base] == header + ToBytes(1, 8) + ToBytes(NO_FREE_ID, 8)
      ensures blocks == [UsedBlock(layout, Node(ROOT_ID, [], [], true), Zeros(layout.padded))]
      ensures Nodes() == map[ROOT_ID := Node(ROOT_ID, [], [], true)]
    {
      hide Sound, NodeSize, Size, ToBytes, Decodable, Decoded, Readable;
      this.layout := layout;
      depth := 1;
      freeId := NO_FREE_ID;
      file := header + ToBytes(1, 8) + ToBytes(NO_FREE_ID, 8);
      blocks, chain, outstanding := [], [], {};
      new;
      NewMetadata(header, ToBytes(1, 8), ToBytes(NO_FREE_ID, 8));
      IdFits(layout, file, [], 0);
      SmallFits(1);
      var _, id := NewId();
      assert id == ROOT_ID;
      var root: Node<Value> := Node(ROOT_ID, [], [], true);
      StoredUnchanged(layout, root);
      Persist(root);
    }

    /** Null when b is too small for one value and one child, or too large for a length. */
    static method NewPersistentStorage(b: nat, blockSize: int, header: seq<byte>, key: Blueprint, value: Blueprint)
        returns (r: PersistentStorage?)
      requires Sound(key) && Sound(value)
      requires b >= 2 ==>
        |header| + 16 + NodeSize(Layout(0, 0, b, key, value)) + (if blockSize > 0 then blockSize else 0) <= MAX_FILE
      ensures r == null <==> b < 2 || b >= 0xFFFF_FFFF
      ensures r != null ==>
        && fresh(r) && r.Valid() && r.Header() == header && r.depth == 1 && r.outstanding == {}
        && r.layout.b == b && r.layout.key == key && r.layout.value == value
        && r.layout.base == |header| + 16 && |r.file| == r.layout.base + r.layout.padded
        && r.layout.padded <= NodeSize(Layout(0, 0, b, key, value)) + (if blockSize > 0 then blockSize else 0)
        && Padding(NodeBytes(b, key, value), blockSize, r.layout.padded)
        && r.Nodes() == map[ROOT_ID := Node(ROOT_ID, [], [], true)]
    {
      hide Size, Sound, ValuesBp, ChildrenBp, NodeBytes, Padding;
      if b >= 0xFFFF_FFFF || b < 2 {
        return null;
      }
      var layout := Layout(|header| + 16, 0, b, key, value);
      var padded := CalculatePaddedNodeSize(NodeSize(layout), blockSize);
      NodeSizeIs(layout);
      SameSize(layout, |header| + 16, padded);
      SameSize(layout, 0, 0);
      r := new PersistentStorage(layout.(padded := padded), header);
    }

    // ---- reading and writing the file ----

    method IdToOffset(id: nat) returns (offset: nat)
      ensures offset == Start(layout, id)
    {
      StartIsOffset(layout, id);
      offset := layout.base + id * layout.padded;
    }

    method WriteAt(data: seq<byte>, at: nat)
      requires at + |data| <= |file|
      modifies this`file
      ensures file == Patched(old(file), at, data)
    {
      file := file[..at] + data + file[at + |data|..];
    }

    method WriteBlock(id: nat, skip: nat, data: seq<byte>)
      requires Placed() && id < |blocks| && skip + |data| <= layout.padded
      modifies this`file, this`blocks
      ensures |old(blocks)[id]| == layout.padded
      ensures Placed() && blocks == old(blocks)[id := Patched(old(blocks)[id], skip, data)]
      ensures Header() == old(Header()) && |file| == |old(file)|
    {
      hide Patched, Start, SoundLayout;
      PatchBlock(layout, file, blocks, id, skip, data);
      var offset := IdToOffset(id);
      WriteAt(data, offset + skip);
      blocks := blocks[id := Patched(blocks[id], skip, data)];
    }

    method ReadBlock(id: nat, skip: nat, n: nat) returns (data: seq<byte>)
      requires Placed() && id < |blocks| && skip + n <= layout.padded
      ensures |blocks[id]| == layout.padded && data == blocks[id][skip..skip + n]
    {
      hide Start, SoundLayout;
      ReadInBlock(layout, file, blocks, id, skip, skip + n);
      var offset := IdToOffset(id);
      data := file[offset + skip..offset + skip + n];
    }

    /** The number of blocks, from the length of the file. */
    method EndId() returns (id: nat)
      requires Placed()
      ensures id == |blocks|
    {
      hide Start;
      SoundParts(layout);
      BlockCount(layout, |blocks|);
      StartBase(layout, |blocks|);
      id := (|file| - layout.base) / layout.padded;
    }

    // ---- metadata ----

    method SetDepth(depth: nat)
      requires Placed() && depth < Pow256(8)
      modifies this`file, this`depth
      ensures Placed() && this.depth == depth && Header() == old(Header()) && |file| == |old(file)|
      ensures file[layout.base - 16..layout.base] == ToBytes(this.depth, 8) + ToBytes(freeId, 8)
    {
      this.depth := depth;
      PatchMetadata(layout, file, blocks, layout.base - 16, ToBytes(depth, 8));
      MetadataPatched(file[..layout.base], ToBytes(old(this.depth), 8), ToBytes(freeId, 8), ToBytes(depth, 8));
      WriteAt(ToBytes(depth, 8), layout.base - 16);
    }

    method UpdateFreeId(id: nat)
      requires Placed() && id < Pow256(8)
      modifies this`file, this`freeId
      ensures Placed() && freeId == id && Header() == old(Header()) && |file| == |old(file)|
      ensures file[layout.base - 16..layout.base] == ToBytes(depth, 8) + ToBytes(freeId, 8)
    {
      freeId := id;
      PatchMetadata(layout, file, blocks, layout.base - 8, ToBytes(id, 8));
      MetadataPatched(file[..layout.base], ToBytes(depth, 8), ToBytes(old(freeId), 8), ToBytes(id, 8));
      WriteAt(ToBytes(id, 8), layout.base - 8);
    }

    /** Reading the metadata again brings back what was last set. */
    method LoadMetadata()
      requires Placed()
      modifies this`depth, this`freeId
      ensures depth == old(depth) && freeId == old(freeId) && Placed()
    {
      ghost var meta := file[..layout.base][layout.base - 16..];
      var metaBytes := file[layout.base - 16..layout.base];
      assert metaBytes == meta;
      FromToBytes(depth, 8);
      FromToBytes(freeId, 8);
      assert metaBytes[..8] == ToBytes(depth, 8) && metaBytes[8..] == ToBytes(freeId, 8);
      depth := FromBytes(metaBytes[..8]);
      freeId := FromBytes(metaBytes[8..]);
    }

    // ---- nodes ----

    method Get(id: nat) returns (status: Status, node: Node<Value>)
      requires Framed()
      ensures status == EndOfFile <==> id >= |blocks|
      ensures status == MissingNode <==> id < |blocks| && id !in Nodes()
      ensures status == Done <==> id in Nodes()
      ensures status == Done ==> node == Nodes()[id]
    {
      hide Size, ValuesBp, ChildrenBp, From, Readable, Start, NodeSize, Sound, MetadataAgrees, Mirrors, Decodable,
           ValuesPart, ChildrenPart;
      SoundParts(layout);
      node := Node(id, [], [], true);
      var lastId := EndId();
      if id >= lastId {
        return EndOfFile, node;
      }
      var nodeData := ReadBlock(id, 0, NodeSize(layout));
      assert nodeData[0] == blocks[id][0];
      if nodeData[0] == 0 {
        return MissingNode, node;
      }
      assert InUse(blocks[id]) && Decodable(layout, blocks[id]);
      NodeParts(layout, blocks[id], nodeData);
      var values := Deserialize(ValuesBp(layout), nodeData[1..]);
      var children := Deserialize(ChildrenBp(layout), nodeData[1 + Size(ValuesBp(layout))..]);
      node := Node(id, Entries(values), ChildIds(children), ChildIds(children) == []);
      status := Done;
    }

    /** Writes the node, cut to the room of a block; nothing else in the file changes. */
    method Persist(node: Node<Value>)
      requires Valid() && node.id < |blocks| && node.id !in chain && Storable(layout, node)
      modifies this`file, this`blocks, this`outstanding
      ensures Valid() && outstanding == old(outstanding) - {node.id}
      ensures Nodes() == old(Nodes())[node.id := Stored(layout, node)]
      ensures |blocks| == |old(blocks)| && |old(blocks)[node.id]| == layout.padded
      ensures blocks[node.id] == UsedBlock(layout, node, old(blocks)[node.id])
      ensures |file| == |old(file)| && Header() == old(Header())
      ensures forall id :: 0 <= id < |blocks| && id != node.id ==> blocks[id] == old(blocks)[id]
    {
      hide Size, ValuesBp, ChildrenBp, Readable, Start, NodeSize, Sound, Chained, Accounted, AllDecodable, Typed,
           Storable,
           Encoded, Stored, Decodable, Decoded, InUse, MetadataAgrees, Patched, NodesIn, Mirrors, UsedBlock;
      SoundParts(layout);
      ghost var before, block := blocks, blocks[node.id];
      BlockInside(layout, file, blocks, node.id);
      PersistedDecodes(layout, node, block);
      var values := Serialize(ValuesBp(layout), ListV(node.values));
      var children := Serialize(ChildrenBp(layout), ListV(ChildValues(node.children)));
      WriteBlock(node.id, 0, [1]);
      WriteBlock(node.id, 1, values);
      WriteBlock(node.id, 1 + Size(ValuesBp(layout)), children);
      ghost var after := PersistedBlock(layout, block, values, children);
      UsedBytes(layout, node, block);
      assert blocks == before[node.id := after];
      NodesAfterUse(layout, before, node.id, after);
      ChainKept(before, freeId, chain, node.id, after);
      AccountedUse(before, chain, outstanding, node.id, after);
      outstanding := outstanding - {node.id};
    }

    /** Puts the block in front of the free ones. */
    method Remove(id: nat) returns (status: Status)
      requires Valid() && id < |blocks| && id !in chain
      modifies this`file, this`freeId, this`blocks, this`chain, this`outstanding
      ensures Valid() && Header() == old(Header()) && |blocks| == |old(blocks)| && |file| == |old(file)|
      ensures status == (if id == ROOT_ID then RootNotRemovable else Done)
      ensures id == ROOT_ID ==>
        file == old(file) && blocks == old(blocks) && chain == old(chain) && outstanding == old(outstanding)
      ensures id != ROOT_ID ==>
        && chain == [id] + old(chain) && outstanding == old(outstanding) - {id} && Nodes() == old(Nodes()) - {id}
      ensures id != ROOT_ID ==>
        |old(blocks)[id]| >= 9 && blocks[id] == FreedBlock(old(freeId), old(blocks)[id]) && freeId == id
      ensures forall i :: 0 <= i < |blocks| && i != id ==> blocks[i] == old(blocks)[i]
    {
      hide Size, ValuesBp, ChildrenBp, Readable, Start, NodeSize, Sound, Chained, Accounted, AllDecodable,
           Decodable, Decoded, InUse, MetadataAgrees, Patched, NodesIn, Mirrors, NextFree, FreedBlock;
      if id == ROOT_ID {
        return RootNotRemovable;
      }
      SoundParts(layout);
      ghost var before, block := blocks, blocks[id];
      BlockInside(layout, file, blocks, id);
      FreeIdFits();
      FreedLinks(block, freeId);
      IdFits(layout, file, blocks, id);
      WriteBlock(id, 0, [0]);
      WriteBlock(id, 1, ToBytes(freeId, 8));
      FreedBytes(block, freeId);
      ghost var after := Patched(Patched(block, 0, [0]), 1, ToBytes(freeId, 8));
      assert blocks == before[id := after];
      NodesAfterFree(layout, before, id, after);
      ChainPush(before, freeId, chain, id, after);
      AccountedPush(before, chain, outstanding, id, after);
      outstanding := outstanding - {id};
      chain := [id] + chain;
      UpdateFreeId(id);
      status := Done;
    }

    lemma FreeIdFits()
      requires MetadataAgrees()
      ensures freeId < Pow256(8)
    {
    }

    /** An id that is neither stored nor handed out: the first free block, or a new one at the end. */
    method NewId() returns (status: Status, id: nat)
      requires Valid() && (chain == [] ==> |file| + layout.padded <= MAX_FILE)
      modifies this`file, this`freeId, this`blocks, this`chain, this`outstanding
      ensures Valid() && status == Done && Header() == old(Header())
      ensures |old(file)| <= |file| <= |old(file)| + layout.padded
      ensures id !in old(Nodes()) && id !in old(outstanding)
      ensures outstanding == old(outstanding) + {id} && Nodes() == old(Nodes())
      ensures if old(chain) == [] then id == |old(blocks)| && |blocks| == |old(blocks)| + 1 && chain == []
              else id == old(chain)[0] && chain == old(chain)[1..] && blocks == old(blocks)
      ensures forall i :: 0 <= i < |old(blocks)| ==> blocks[i] == old(blocks)[i]
      ensures old(chain) == [] ==> blocks[id] == Zeros(layout.padded)
    {
      hide Size, ValuesBp, ChildrenBp, Readable, Start, NodeSize, Sound, AllDecodable, Decodable, Decoded, Patched,
           Mirrors, NodesIn, Chained, Accounted;
      SoundParts(layout);
      ChainStart(blocks, freeId, chain);
      ChainBelow(blocks, freeId, chain);
      UnknownId(layout, blocks);
      if freeId == NO_FREE_ID {
        var newId := EndId();
        var block := [0] + seq(layout.padded - 1, _ => 0);
        AppendBlock(layout, file, blocks, block);
        NodesAfterAppend(layout, blocks, block);
        AccountedAppend(blocks, chain, outstanding, block);
        ChainAppend(blocks, freeId, chain, block);
        file := file + block;
        blocks := blocks + [block];
        outstanding := outstanding + {newId};
        return Done, newId;
      }
      ChainTail(blocks, freeId, chain);
      AccountedTake(blocks, chain, outstanding);
      id := freeId;
      var freeNodeData := ReadBlock(freeId, 0, 9);
      status := BlockInUse;
      if freeNodeData[0] != 0 {
        return;
      }
      var nextFreeId := FromBytes(freeNodeData[1..]);
      assert freeNodeData[1..] == blocks[freeId][1..9];
      outstanding := outstanding + {id};
      IdFits(layout, file, blocks, nextFreeId);
      chain := chain[1..];
      UpdateFreeId(nextFreeId);
      status := Done;
    }
  }
}
