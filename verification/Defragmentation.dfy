/** Compaction of the file in place. */
module Defragmentation {
  import opened Bytes
  import opened Blueprints
  import opened Serializers
  import opened Shapes
  import opened Links
  import opened Renaming
  import opened Blocks
  import opened NodeBlocks
  import opened FreeChains
  import opened Persistent

  method CheckIfInUse(p: PersistentStorage, id: nat) returns (status: Status, inUse: bool)
    requires p.Placed()
    ensures status == if id < |p.blocks| then Done else EndOfFile
    ensures status == Done ==> inUse == InUse(p.blocks[id])
  {
    hide PersistentStorage.MetadataAgrees, Mirrors, NodeSize, Sound;
    SoundParts(p.layout);
    inUse := false;
    var lastId := p.EndId();
    if id >= lastId {
      return EndOfFile, false;
    }
    var bytes := p.ReadBlock(id, 0, 1);
    assert bytes[0] == p.blocks[id][0];
    inUse := bytes[0] != 0;
    status := Done;
  }

  /** The first run of free blocks from startAt on, or (0, 0) when there is none. */
  method FindEmptyBlock(p: PersistentStorage, startAt: nat) returns (first: nat, second: nat)
    requires p.Placed() && startAt > 0
    ensures second == 0 ==> first == 0 && forall id :: startAt <= id < |p.blocks| ==> InUse(p.blocks[id])
    ensures second != 0 ==>
      && startAt <= first <= second < |p.blocks|
      && (forall id :: startAt <= id < first ==> InUse(p.blocks[id]))
      && (forall id :: first <= id <= second ==> !InUse(p.blocks[id]))
      && (second + 1 < |p.blocks| ==> InUse(p.blocks[second + 1]))
  {
    hide InUse, PersistentStorage.Placed;
    var at := startAt;
    var status, inUse := CheckIfInUse(p, at);
    while status == Done && inUse
      invariant startAt <= at && (at <= |p.blocks| || at == startAt)
      invariant status == if at < |p.blocks| then Done else EndOfFile
      invariant status == Done ==> inUse == InUse(p.blocks[at])
      invariant forall id :: startAt <= id < at && id < |p.blocks| ==> InUse(p.blocks[id])
      decreases |p.blocks| - at
    {
      at := at + 1;
      status, inUse := CheckIfInUse(p, at);
    }
    if status == EndOfFile {
      return 0, 0;
    }
    first, second := at, at;
    at := at + 1;
    status, inUse := CheckIfInUse(p, at);
    while status == Done && !inUse
      invariant first <= second < |p.blocks| && at == second + 1
      invariant status == if at < |p.blocks| then Done else EndOfFile
      invariant status == Done ==> inUse == InUse(p.blocks[at])
      invariant forall id :: first <= id <= second ==> !InUse(p.blocks[id])
      decreases |p.blocks| - at
    {
      second := at;
      at := at + 1;
      status, inUse := CheckIfInUse(p, at);
    }
  }

  /** Only flag and children are read. */
  method LoadWithoutValues(p: PersistentStorage, id: nat) returns (status: Status, children: seq<nat>)
    requires p.Framed() && id < |p.blocks|
    ensures status == if id in p.Nodes() then Done else MissingNode
    ensures status == Done ==> children == p.Nodes()[id].children
  {
    hide Size, ValuesBp, ChildrenBp, From, Readable, Start, NodeSize, Sound, PersistentStorage.MetadataAgrees, Mirrors;
    SoundParts(p.layout);
    children := [];
    var inUseData := p.ReadBlock(id, 0, 1);
    assert inUseData[0] == p.blocks[id][0];
    if inUseData[0] == 0 {
      return MissingNode, [];
    }
    assert InUse(p.blocks[id]) && Decodable(p.layout, p.blocks[id]);
    var childrenData := p.ReadBlock(id, 1 + Size(ValuesBp(p.layout)), Size(ChildrenBp(p.layout)));
    assert childrenData == ChildrenPart(p.layout, p.blocks[id]);
    assert childrenData[..Size(ChildrenBp(p.layout))] == childrenData;
    var v := Deserialize(ChildrenBp(p.layout), childrenData);
    children := ChildIds(v);
    status := Done;
  }

  /** Puts the children in place; the entries stay as they are in the file, byte for byte. */
  method PersistWithoutValues(p: PersistentStorage, id: nat, children: seq<nat>)
    requires p.Framed() && id in p.Nodes()
    requires |children| <= p.layout.b && forall i :: 0 <= i < |children| ==> children[i] < Pow256(8)
    modifies p`file, p`blocks
    ensures p.Framed() && p.Header() == old(p.Header()) && |p.blocks| == |old(p.blocks)|
    ensures var n := old(p.Nodes())[id];
            p.Nodes() == old(p.Nodes())[id := Node(id, n.values, children, children == [])]
    ensures forall i :: 0 <= i < |p.blocks| && i != id ==> p.blocks[i] == old(p.blocks)[i]
    ensures Decodable(p.layout, old(p.blocks)[id]) && Decodable(p.layout, p.blocks[id])
    ensures ValuesPart(p.layout, p.blocks[id]) == ValuesPart(p.layout, old(p.blocks)[id])
  {
    hide Size, ValuesBp, ChildrenBp, Readable, Start, NodeSize, Sound, Typed, Encoded, Decodable, Decoded, InUse,
         PersistentStorage.MetadataAgrees, Patched, NodesIn, Mirrors, ValuesPart, ChildrenPart;
    SoundParts(p.layout);
    UnknownId(p.layout, p.blocks);
    ghost var before, block := p.blocks, p.blocks[id];
    ChildrenRewritten(p.layout, id, block, children);
    p.WriteBlock(id, 0, [1]);
    var data := Serialize(ChildrenBp(p.layout), ListV(ChildValues(children)));
    p.WriteBlock(id, 1 + Size(ValuesBp(p.layout)), data);
    ghost var after := Patched(Patched(block, 0, [1]), 1 + Size(ValuesBp(p.layout)), data);
    assert p.blocks == before[id := after];
    NodesAfterUse(p.layout, before, id, after);
    NodesInAt(p.layout, before, id);
  }

  lemma NodesInAt(L: Layout, blocks: seq<Block>, id: nat)
    requires AllDecodable(L, blocks) && id < |blocks| && InUse(blocks[id])
    ensures id in NodesIn(L, blocks) && NodesIn(L, blocks)[id] == Decoded(L, id, blocks[id])
    ensures NodesIn(L, blocks)[id].values == DecodedEntries(L, blocks[id])
  {
  }

  /** The node takes over the other block; its own is marked free, outside of the list. */
  method MoveNode(p: PersistentStorage, oldId: nat, newId: nat)
    requires p.Framed() && oldId in p.Nodes() && newId < |p.blocks| && newId != oldId
    modifies p`file, p`blocks
    ensures p.Framed() && p.Header() == old(p.Header()) && |p.blocks| == |old(p.blocks)|
    ensures p.Nodes() == (old(p.Nodes()) - {oldId})[newId := old(p.Nodes())[oldId].(id := newId)]
    ensures InUse(p.blocks[newId]) && !InUse(p.blocks[oldId])
    ensures forall i :: 0 <= i < |p.blocks| && i != oldId && i != newId ==> p.blocks[i] == old(p.blocks)[i]
  {
    hide Size, ValuesBp, ChildrenBp, Readable, Start, NodeSize, Sound, Decodable, Decoded, InUse, AllDecodable,
         PersistentStorage.MetadataAgrees, Patched, NodesIn, Mirrors;
    SoundParts(p.layout);
    UnknownId(p.layout, p.blocks);
    ghost var before, from, to := p.blocks, p.blocks[oldId], p.blocks[newId];
    InUseDecodes(p.layout, before, oldId);
    BlockInside(p.layout, p.file, before, newId);
    CopiedBlock(p.layout, newId, from, to);
    var node := p.ReadBlock(oldId, 0, NodeSize(p.layout));
    assert node == from[..NodeSize(p.layout)];
    p.WriteBlock(newId, 0, node);
    p.WriteBlock(oldId, 0, [0]);
    ghost var copy, gone := Patched(to, 0, node), Patched(from, 0, [0]);
    assert p.blocks == before[newId := copy][oldId := gone];
    UsedByFlag(from, 0);
    NodesAfterUse(p.layout, before, newId, copy);
    NodesAfterFree(p.layout, before[newId := copy], oldId, gone);
    NodesInAt(p.layout, before, oldId);
    DecodedId(p.layout, oldId, newId, from);
    Exchanged(NodesIn(p.layout, before), oldId, newId, Decoded(p.layout, newId, copy));
  }

  lemma InUseDecodes(L: Layout, blocks: seq<Block>, id: nat)
    requires AllDecodable(L, blocks) && id < |blocks| && InUse(blocks[id])
    ensures Decodable(L, blocks[id])
  {
  }

  lemma DecodedId(L: Layout, id: nat, id': nat, block: Block)
    requires Decodable(L, block)
    ensures Decoded(L, id', block) == Decoded(L, id, block).(id := id')
  {
  }

  lemma Exchanged<E>(nodes: Store<E>, x: nat, y: nat, n: Node<E>)
    requires x != y
    ensures nodes[y := n] - {x} == (nodes - {x})[y := n]
  {
  }

  // ---- the compaction ----

  /** Every block below first is in use; those from first to second are free. */
  ghost predicate Frontier(blocks: seq<Block>, first: nat, second: nat) {
    && 0 < first <= second < |blocks|
    && (forall id :: 0 <= id < first ==> InUse(blocks[id]))
    && (forall id :: first <= id <= second ==> !InUse(blocks[id]))
  }

  /** The nodes as they are meant while the list of children of id in the file is stale. */
  ghost function Pending<E>(nodes: Store<E>, id: nat, children: seq<nat>): Store<E>
    requires id in nodes
  {
    nodes[id := Node(id, nodes[id].values, children, nodes[id].leaf)]
  }

  ghost predicate Rooted<E>(nodes: Store<E>) {
    Keyed(nodes) && Closed(nodes, ROOT_ID) && SingleParent(nodes)
  }

  /** What the file will hold is the original tree, under ids that keep the root. */
  ghost predicate Faithfully<E>(before: Store<E>, s: Renumbering, nodes: Store<E>) {
    Renamed(before, s, nodes) && Rooted(before) && s[ROOT_ID] == ROOT_ID
  }

  lemma PendingChild<E>(before: Store<E>, s: Renumbering, nodes: Store<E>, id: nat, children: seq<nat>, i: nat)
    requires id in nodes && i < |children| && Faithfully(before, s, Pending(nodes, id, children))
    ensures children[i] in nodes
  {
    RenamedClosed(before, s, Pending(nodes, id, children), ROOT_ID);
    assert Pending(nodes, id, children)[id].children == children;
  }

  lemma PendingMoved<E>(before: Store<E>, s: Renumbering, nodes: Store<E>, id: nat, children: seq<nat>, i: nat, f: nat)
    requires id in nodes && i < |children| && Faithfully(before, s, Pending(nodes, id, children))
    requires f !in nodes && children[i] in nodes && children[i] != id
    ensures var c := children[i];
            var moved := (nodes - {c})[f := nodes[c].(id := f)];
            id in moved && moved[id] == nodes[id]
            && Faithfully(before, Redirected(s, c, f), Pending(moved, id, children[i := f]))
  {
    hide Renamed, Closed, SingleParent, Keyed;
    var c, pending := children[i], Pending(nodes, id, children);
    MoveRenames(before, s, pending, ROOT_ID, id, i, f);
    var moved := (nodes - {c})[f := nodes[c].(id := f)];
    assert MovedIn(pending, id, i, f) == Pending(moved, id, children[i := f]);
  }

  /** After taken has been filled, the next free block: in the same run, or else the first one after it. There is
      one, because the block that the node came from is free now. */
  method NextFreeBlock(p: PersistentStorage, taken: nat, lastFree: nat, ghost freed: nat)
      returns (status: Status, first: nat, second: nat)
    requires p.Placed() && 0 < taken <= lastFree < freed < |p.blocks| && !InUse(p.blocks[freed])
    requires forall id :: 0 <= id <= taken ==> InUse(p.blocks[id])
    requires forall id :: taken < id <= lastFree ==> !InUse(p.blocks[id])
    ensures status == Done && taken < first && Frontier(p.blocks, first, second)
  {
    hide PersistentStorage.Placed, InUse;
    status, first, second := Done, taken + 1, lastFree;
    if first > second {
      first, second := FindEmptyBlock(p, second + 1);
      if second == 0 {
        status := NoFreeBlock;
      }
    }
  }

  method ReorderChildren(p: PersistentStorage, id: nat, loaded: seq<nat>, firstFree: nat, lastFree: nat,
                         ghost before: Store<Value>, ghost from: Renumbering)
      returns (status: Status, children: seq<nat>, first: nat, second: nat, persist: bool, ghost s: Renumbering)
    requires p.Framed() && Frontier(p.blocks, firstFree, lastFree) && id < firstFree
    requires id in p.Nodes() && loaded == p.Nodes()[id].children && Faithfully(before, from, p.Nodes())
    modifies p`file, p`blocks
    ensures p.Framed() && p.Header() == old(p.Header()) && |p.blocks| == |old(p.blocks)|
    ensures status == Done && Frontier(p.blocks, first, second) && firstFree <= first
    ensures id in p.Nodes() && p.Nodes()[id] == old(p.Nodes())[id]
    ensures Faithfully(before, s, Pending(p.Nodes(), id, children))
    ensures |children| == |loaded| && forall i :: 0 <= i < |children| ==> children[i] < first
    ensures !persist ==> children == loaded
    ensures forall j :: 0 <= j < firstFree ==> p.blocks[j] == old(p.blocks)[j]
  {
    hide PersistentStorage.Placed, AllDecodable, InUse, Faithfully, PersistentStorage.Nodes, Pending;
    children, first, second, persist, s := loaded, firstFree, lastFree, false, from;
    status := Done;
    NodesKeyed(p, id);
    PendingNone(p.Nodes(), id);
    var i := 0;
    while i < |children|
      invariant 0 <= i <= |children| == |loaded| && status == Done
      invariant p.Framed() && p.Header() == old(p.Header()) && |p.blocks| == |old(p.blocks)|
      invariant Frontier(p.blocks, first, second) && firstFree <= first
      invariant id in p.Nodes() && p.Nodes()[id] == old(p.Nodes())[id]
      invariant Faithfully(before, s, Pending(p.Nodes(), id, children))
      invariant forall k :: 0 <= k < i ==> children[k] < first
      invariant !persist ==> children == loaded
      invariant forall j :: 0 <= j < firstFree ==> p.blocks[j] == old(p.blocks)[j]
    {
      ghost var nodes := p.Nodes();
      var child := children[i];
      PendingChild(before, s, nodes, id, children, i);
      NodesInUse(p);
      if first < child {
        persist := true;
        PendingMoved(before, s, nodes, id, children, i, first);
        MoveNode(p, child, first);
        s := Redirected(s, child, first);
        children := children[i := first];
        status, first, second := NextFreeBlock(p, first, second, child);
        if status != Done {
          return;
        }
      }
      i := i + 1;
    }
  }

  lemma PendingNone<E>(nodes: Store<E>, id: nat)
    requires id in nodes && nodes[id].id == id
    ensures Pending(nodes, id, nodes[id].children) == nodes
  {
  }

  lemma NodesKeyed(p: PersistentStorage, id: nat)
    requires p.Framed() && id in p.Nodes()
    ensures p.Nodes()[id].id == id
  {
  }

  lemma NodesInUse(p: PersistentStorage)
    requires p.Framed()
    ensures forall id: nat :: id in p.Nodes() <==> id < |p.blocks| && InUse(p.blocks[id])
  {
  }

  // ---- the result ----

  /** No node below the frontier links past it, so nothing in the tree lies past it. */
  lemma NothingBeyond<E>(nodes: Store<E>, t: Shape<E>, first: nat)
    requires Holds(nodes, t) && t.id == ROOT_ID && first > 0
    requires forall id, k :: id in nodes && id < first && 0 <= k < |nodes[id].children| ==>
               nodes[id].children[k] < first
    ensures forall id :: id in nodes ==> id < first
  {
    forall id | id in nodes ensures id < first {
      StoredIsReachable(nodes, t, id);
      var ids :| Walk(nodes, ROOT_ID, ids) && ids[|ids| - 1] == id;
      WalkBelow(nodes, ids, |ids| - 1, first);
    }
  }

  lemma {:induction false} WalkBelow<E>(nodes: Store<E>, ids: seq<nat>, i: nat, first: nat)
    requires Walk(nodes, ROOT_ID, ids) && i < |ids| && first > 0
    requires forall id, k :: id in nodes && id < first && 0 <= k < |nodes[id].children| ==>
               nodes[id].children[k] < first
    ensures ids[i] < first
  {
    if i > 0 {
      WalkBelow(nodes, ids, i - 1, first);
      assert ids[i - 1 + 1] in nodes[ids[i - 1]].children;
    }
  }

  /** All nodes below id link only below first. */
  ghost predicate Settled<E>(nodes: Store<E>, id: nat, first: nat) {
    forall j, k :: j in nodes && j < id && 0 <= k < |nodes[j].children| ==> nodes[j].children[k] < first
  }

  lemma SettledNone<E>(nodes: Store<E>, first: nat)
    ensures Settled(nodes, 0, first)
  {
  }

  lemma SettledNext<E>(nodes: Store<E>, after: Store<E>, id: nat, first: nat, first': nat)
    requires Settled(nodes, id, first) && first <= first' && id in after
    requires forall j :: j in after && j < id ==> j in nodes && after[j] == nodes[j]
    requires forall k :: 0 <= k < |after[id].children| ==> after[id].children[k] < first'
    ensures Settled(after, id + 1, first')
  {
  }

  lemma SameBlocksSameNodes(L: Layout, before: seq<Block>, after: seq<Block>, n: nat)
    requires AllDecodable(L, before) && AllDecodable(L, after) && |before| == |after|
    requires forall j :: 0 <= j < n && j < |before| ==> after[j] == before[j]
    ensures forall j :: j in NodesIn(L, after) && j < n ==>
              j in NodesIn(L, before) && NodesIn(L, after)[j] == NodesIn(L, before)[j]
  {
    hide Decodable, Decoded, InUse;
  }

  lemma ChildrenFit(p: PersistentStorage, id: nat)
    requires p.Framed() && id in p.Nodes()
    ensures |p.Nodes()[id].children| <= p.layout.b
    ensures p.Nodes()[id].leaf <==> p.Nodes()[id].children == []
  {
    hide Sound;
    DecodedFits(p.layout, p.blocks[id]);
  }

  lemma DecodedFits(L: Layout, block: Block)
    requires Decodable(L, block)
    ensures |DecodedChildren(L, block)| <= L.b
  {
    SoundParts(L);
    var s := ChildrenPart(L, block);
    assert ReadableSlice(L.b, UintBp(8), s) && From(ChildrenBp(L), s) == ListV(FromSlice(L.b, UintBp(8), s));
  }

  /** One turn of the outer loop: the children of id move up, and id is told where they are. */
  method Reorder(p: PersistentStorage, id: nat, loaded: seq<nat>, firstFree: nat, lastFree: nat,
                 ghost before: Store<Value>, ghost from: Renumbering)
      returns (status: Status, first: nat, second: nat, ghost s: Renumbering)
    requires p.Framed() && Frontier(p.blocks, firstFree, lastFree) && id < firstFree
    requires id in p.Nodes() && loaded == p.Nodes()[id].children && Faithfully(before, from, p.Nodes())
    requires Settled(p.Nodes(), id, firstFree)
    modifies p`file, p`blocks
    ensures p.Framed() && p.Header() == old(p.Header()) && |p.blocks| == |old(p.blocks)|
    ensures status == Done && Frontier(p.blocks, first, second) && firstFree <= first
    ensures Faithfully(before, s, p.Nodes()) && Settled(p.Nodes(), id + 1, first)
  {
    hide PersistentStorage.MetadataAgrees, Mirrors, SoundLayout, AllDecodable, InUse, Faithfully, NodesIn, Pending,
         Settled, Decodable;
    ghost var blocks, nodes := p.blocks, p.Nodes();
    ChildrenFit(p, id);
    var children, persist;
    status, children, first, second, persist, s := ReorderChildren(p, id, loaded, firstFree, lastFree, before, from);
    if status != Done {
      return;
    }
    NodesKeyed(p, id);
    if persist {
      forall i | 0 <= i < |children| ensures children[i] < Pow256(8) {
        IdFits(p.layout, p.file, p.blocks, first);
      }
      PendingPersisted(p.Nodes(), id, children);
      PersistWithoutValues(p, id, children);
      NodesInUse(p);
    } else {
      PendingNone(p.Nodes(), id);
    }
    SameBlocksSameNodes(p.layout, blocks, p.blocks, id);
    SettledNext(nodes, p.Nodes(), id, firstFree, first);
  }

  lemma PendingPersisted<E>(nodes: Store<E>, id: nat, children: seq<nat>)
    requires id in nodes && |children| == |nodes[id].children| && (nodes[id].leaf <==> nodes[id].children == [])
    ensures Pending(nodes, id, children) == nodes[id := Node(id, nodes[id].values, children, children == [])]
  {
  }

  lemma FaithfulFrom(nodes: Store<Value>, t: Shape<Value>) returns (s: Renumbering)
    requires Holds(nodes, t) && t.id == ROOT_ID
    ensures Faithfully(nodes, s, nodes) && ROOT_ID in nodes
  {
    HoldsClosed(nodes, t);
    HoldsSingleParent(nodes, t);
    s := IdentityRenames(nodes, ROOT_ID);
  }

  /** Without handed-out ids, the head of the list tells whether there is a free block. */
  lemma FreeOrFull(p: PersistentStorage)
    requires p.Valid() && p.outstanding == {}
    ensures p.freeId == NO_FREE_ID ==> p.chain == [] && forall id :: 0 <= id < |p.blocks| ==> InUse(p.blocks[id])
    ensures p.freeId != NO_FREE_ID ==> 0 < p.freeId < |p.blocks| && !InUse(p.blocks[p.freeId])
  {
  }

  lemma Emptied(p: PersistentStorage, before: Store<Value>, s: Renumbering, t: Shape<Value>, first: nat, second: nat,
                n: nat)
    requires p.Framed() && Frontier(p.blocks, first, second) && n <= first && !InUse(p.blocks[n])
    requires Faithfully(before, s, p.Nodes()) && Settled(p.Nodes(), n, first) && Holds(before, t) && t.id == ROOT_ID
    ensures n <= |p.blocks| && forall id :: 0 <= id < |p.blocks| ==> (InUse(p.blocks[id]) <==> id < n)
  {
    hide PersistentStorage.Framed, InUse, Holds, Renamed, Closed, SingleParent, Keyed, PersistentStorage.Nodes;
    assert n == first;
    HoldsRenamed(before, s, p.Nodes(), t);
    RenamedTop(before, s, p.Nodes(), t);
    NothingBeyond(p.Nodes(), RenamedShape(s, t), n);
    NodesInUse(p);
  }

  lemma RenamedTop(before: Store<Value>, s: Renumbering, nodes: Store<Value>, t: Shape<Value>)
    requires Faithfully(before, s, nodes) && t.id == ROOT_ID
    ensures ROOT_ID in s && RenamedShape(s, t).id == ROOT_ID
  {
  }

  method TruncateTo(p: PersistentStorage, n: nat)
    requires p.Framed() && n <= |p.blocks| && forall id :: n <= id < |p.blocks| ==> !InUse(p.blocks[id])
    modifies p`file, p`blocks
    ensures p.Framed() && p.blocks == old(p.blocks)[..n] && p.Nodes() == old(p.Nodes()) && p.Header() == old(p.Header())
  {
    hide SoundLayout, InUse, Mirrors, Start, AllDecodable;
    TruncateBlocks(p.layout, p.file, p.blocks, n);
    NodesAfterTruncate(p.layout, p.blocks, n);
    var offset := p.IdToOffset(n);
    p.file := p.file[..offset];
    p.blocks := p.blocks[..n];
  }

  /** With every block in use, the file has as many blocks as the tree has nodes. */
  lemma Conclude(p: PersistentStorage, before: Store<Value>, s: Renumbering, t: Shape<Value>)
    requires p.Framed() && (forall id :: 0 <= id < |p.blocks| ==> InUse(p.blocks[id]))
    requires p.freeId == NO_FREE_ID && p.chain == [] && p.outstanding == {}
    requires Faithfully(before, s, p.Nodes()) && Holds(before, t)
    ensures p.Valid() && Renamed(before, s, p.Nodes()) && ROOT_ID in s && s[ROOT_ID] == ROOT_ID
    ensures Holds(p.Nodes(), RenamedShape(s, t)) && forall id: nat :: id in p.Nodes() <==> id < |p.blocks|
    ensures |p.blocks| == |before.Keys| && |p.file| == Start(p.layout, |before.Keys|)
  {
    hide PersistentStorage.MetadataAgrees, SoundLayout, InUse, Holds, Renamed, Closed, SingleParent, Keyed,
         PersistentStorage.Nodes;
    NodesInUse(p);
    RenamedTop(before, s, p.Nodes(), Shape(ROOT_ID, [], []));
    HoldsRenamed(before, s, p.Nodes(), t);
    RenamedCount(before, s, p.Nodes());
    InitialSegment(p.Nodes().Keys, |p.blocks|);
  }

  /** Walks the ids from the root on, until the first that is not in use. */
  method Compact(p: PersistentStorage, lastId: nat, ghost before: Store<Value>, ghost from: Renumbering,
                 ghost t: Shape<Value>)
      returns (status: Status, firstEmptyNodeId: nat, ghost s: Renumbering)
    requires p.Framed() && |p.blocks| == lastId + 1
    requires exists id :: 0 < id < |p.blocks| && !InUse(p.blocks[id])
    requires Faithfully(before, from, p.Nodes()) && Holds(before, t) && t.id == ROOT_ID && ROOT_ID in p.Nodes()
    modifies p`file, p`blocks
    ensures p.Framed() && p.Header() == old(p.Header()) && |p.blocks| == |old(p.blocks)|
    ensures status == Done && Faithfully(before, s, p.Nodes()) && firstEmptyNodeId <= |p.blocks|
    ensures forall id :: 0 <= id < |p.blocks| ==> (InUse(p.blocks[id]) <==> id < firstEmptyNodeId)
  {
    hide PersistentStorage.MetadataAgrees, PersistentStorage.Nodes, SoundLayout, InUse, Holds, AllDecodable, Faithfully,
         Settled, Mirrors;
    s, status, firstEmptyNodeId := from, Done, 0;
    NodesInUse(p);
    var first, second := FindEmptyBlock(p, 1);
    SettledNone(p.Nodes(), first);
    if second == 0 {
      status := NoFreeBlock;
      return;
    }
    var reorderedNodeId: nat := ROOT_ID;
    while reorderedNodeId <= lastId
      invariant p.Framed() && p.Header() == old(p.Header()) && |p.blocks| == lastId + 1 && status == Done
      invariant Frontier(p.blocks, first, second) && reorderedNodeId <= first
      invariant Faithfully(before, s, p.Nodes()) && Settled(p.Nodes(), reorderedNodeId, first)
      decreases lastId + 1 - reorderedNodeId
    {
      var loaded, children := LoadWithoutValues(p, reorderedNodeId);
      NodesInUse(p);
      if loaded == MissingNode {
        firstEmptyNodeId := reorderedNodeId;
        break;
      }
      status, first, second, s := Reorder(p, reorderedNodeId, children, first, second, before, s);
      if status != Done {
        return;
      }
      reorderedNodeId := reorderedNodeId + 1;
    }
    Emptied(p, before, s, t, first, second, firstEmptyNodeId);
  }

  /** Compacts the file in place. No error can occur, and what remains are the nodes of the same tree under ids
      without gaps. */
  method Defragment(p: PersistentStorage, ghost t: Shape<Value>) returns (status: Status, ghost s: Renumbering)
    requires p.Valid() && p.outstanding == {} && Holds(p.Nodes(), t) && t.id == ROOT_ID
    modifies p`file, p`freeId, p`blocks, p`chain
    ensures p.Valid() && status == Done && p.Header() == old(p.Header())
    ensures Renamed(old(p.Nodes()), s, p.Nodes()) && ROOT_ID in s && s[ROOT_ID] == ROOT_ID
    ensures Holds(p.Nodes(), RenamedShape(s, t))
    ensures forall id: nat :: id in p.Nodes() <==> id < |p.blocks|
    ensures |p.blocks| == |old(p.Nodes()).Keys| && |p.file| == Start(p.layout, |old(p.Nodes()).Keys|)
    ensures p.freeId == NO_FREE_ID && p.chain == []
  {
    hide PersistentStorage.MetadataAgrees, NodesIn, SoundLayout, InUse, Holds, RenamedShape, Renamed, Start, Accounted,
         AllDecodable, Faithfully, Mirrors, ToBytes;
    ghost var before := p.Nodes();
    s := FaithfulFrom(before, t);
    status := Done;
    FreeOrFull(p);
    if p.freeId == NO_FREE_ID {
      Conclude(p, before, s, t);
      return;
    }
    var endId := p.EndId();
    var lastId: nat := endId - 1;
    if lastId == 0 {
      return;
    }
    var firstEmptyNodeId;
    status, firstEmptyNodeId, s := Compact(p, lastId, before, s, t);
    if status != Done {
      return;
    }
    NoneFits();
    p.UpdateFreeId(NO_FREE_ID);
    TruncateTo(p, firstEmptyNodeId);
    p.chain := [];
    Conclude(p, before, s, t);
  }

  lemma NoneFits()
    ensures NO_FREE_ID < Pow256(8)
  {
  }
}
