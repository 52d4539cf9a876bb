/** What a block says: a node in use, or the id of the next free block. */
module NodeBlocks {
  import opened Bytes
  import opened Blueprints
  import opened RoundTrip
  import opened Serializers
  import opened Shapes
  import opened Blocks

  predicate InUse(block: Block) {
    block != [] && block[0] != 0
  }

  ghost function NextFree(block: Block): nat {
    if |block| < 9 then 0 else FromBytes(block[1..9])
  }

  /** Children as they are encoded, and back. */
  function ChildValues(children: seq<nat>): (vs: seq<Value>)
    ensures |vs| == |children|
  {
    seq(|children|, i requires 0 <= i < |children| => UintV(children[i]))
  }

  function ChildIds(v: Value): seq<nat> {
    if v.ListV? then
      seq(|v.elements|, i requires 0 <= i < |v.elements| => if v.elements[i].UintV? then v.elements[i].n else 0)
    else []
  }

  function Entries(v: Value): seq<Value> {
    if v.ListV? then v.elements else []
  }

  ghost function ValuesPart(L: Layout, block: Block): seq<byte>
    requires SoundLayout(L) && |block| == L.padded
    ensures |ValuesPart(L, block)| == Size(ValuesBp(L))
  {
    SoundParts(L);
    block[1..1 + Size(ValuesBp(L))]
  }

  ghost function ChildrenPart(L: Layout, block: Block): seq<byte>
    requires SoundLayout(L) && |block| == L.padded
    ensures |ChildrenPart(L, block)| == Size(ChildrenBp(L))
  {
    SoundParts(L);
    block[1 + Size(ValuesBp(L))..1 + Size(ValuesBp(L)) + Size(ChildrenBp(L))]
  }

  /** The lengths found in the block are within the declared ones, as everything that Persist writes is. */
  ghost predicate Decodable(L: Layout, block: Block) {
    && SoundLayout(L) && |block| == L.padded
    && (SoundParts(L); Readable(ValuesBp(L), ValuesPart(L, block)))
    && (SoundParts(L); Readable(ChildrenBp(L), ChildrenPart(L, block)))
  }

  ghost function DecodedEntries(L: Layout, block: Block): seq<Value>
    requires Decodable(L, block)
  {
    SoundParts(L);
    Entries(From(ValuesBp(L), ValuesPart(L, block)))
  }

  ghost function DecodedChildren(L: Layout, block: Block): seq<nat>
    requires Decodable(L, block)
  {
    SoundParts(L);
    ChildIds(From(ChildrenBp(L), ChildrenPart(L, block)))
  }

  ghost function Decoded(L: Layout, id: nat, block: Block): Node<Value>
    requires Decodable(L, block)
  {
    var children := DecodedChildren(L, block);
    Node(id, DecodedEntries(L, block), children, children == [])
  }

  /** Both parts lie within what Get reads. */
  lemma NodeParts(L: Layout, block: Block, data: seq<byte>)
    requires Decodable(L, block) && data == block[0..NodeSize(L)]
    ensures var n, m := Size(ValuesBp(L)), Size(ChildrenBp(L));
            && 1 + n + m <= |data|
            && data[1..][..n] == ValuesPart(L, block) && data[1 + n..][..m] == ChildrenPart(L, block)
            && Sound(ValuesBp(L)) && Sound(ChildrenBp(L))
            && Readable(ValuesBp(L), data[1..][..n]) && Readable(ChildrenBp(L), data[1 + n..][..m])
  {
    hide Size, ValuesBp, ChildrenBp, Readable, NodeSize, Sound;
    SoundParts(L);
    var n, m := Size(ValuesBp(L)), Size(ChildrenBp(L));
    SubSlice(data, 1, |data| - 1, 0, n);
    SubSlice(data, 1 + n, |data| - 1 - n, 0, m);
    SubSlice(block, 0, |data|, 1, 1 + n);
    SubSlice(block, 0, |data|, 1 + n, 1 + n + m);
  }

  // ---- what Persist can write ----

  ghost predicate Storable(L: Layout, node: Node<Value>) {
    && (forall i :: 0 <= i < |node.values| ==> Typed(EntryBp(L), node.values[i]))
    && (forall i :: 0 <= i < |node.children| ==> node.children[i] < Pow256(8))
  }

  /** The node cut to the room a block has. */
  ghost function Stored(L: Layout, node: Node<Value>): Node<Value>
    requires SoundLayout(L) && Storable(L, node)
  {
    SoundParts(L);
    var entries := node.values[..Min(|node.values|, L.b - 1)];
    Node(node.id, CutAll(EntryBp(L), entries), node.children[..Min(|node.children|, L.b)], node.children == [])
  }

  /** At most b - 1 values and b children, and children exactly where the node is not a leaf. */
  ghost predicate Roomy<E>(n: Node<E>, b: nat) {
    && (n.values == [] || |n.values| < b)
    && (if n.leaf then n.children == [] else |n.children| == |n.values| + 1)
  }

  ghost predicate Fits(L: Layout, node: Node<Value>)
    requires SoundLayout(L) && Storable(L, node)
  {
    SoundParts(L);
    && |node.values| < L.b && |node.children| <= L.b
    && (forall i :: 0 <= i < |node.values| ==> Exact(EntryBp(L), node.values[i]))
    && (node.leaf <==> node.children == [])
  }

  /** A node is stored unchanged exactly when it fits. */
  lemma StoredUnchanged(L: Layout, node: Node<Value>)
    requires SoundLayout(L) && Storable(L, node)
    ensures Stored(L, node) == node <==> Fits(L, node)
  {
    hide Typed, Sound, Cut, Exact;
    SoundParts(L);
    if |node.values| < L.b {
      assert node.values[..Min(|node.values|, L.b - 1)] == node.values;
      CutAllIsIdentity(EntryBp(L), node.values);
    } else {
      assert |Stored(L, node).values| == L.b - 1;
    }
    if |node.children| <= L.b {
      assert node.children[..Min(|node.children|, L.b)] == node.children;
    } else {
      assert |Stored(L, node).children| == L.b;
    }
  }

  lemma ChildrenTyped(L: Layout, children: seq<nat>)
    requires forall i :: 0 <= i < |children| ==> children[i] < Pow256(8)
    ensures Typed(ChildrenBp(L), ListV(ChildValues(children)))
  {
    hide Pow256;
  }

  lemma EntriesCut(L: Layout, values: seq<Value>)
    requires SoundLayout(L) && forall i :: 0 <= i < |values| ==> Typed(EntryBp(L), values[i])
    ensures Sound(EntryBp(L)) && Sound(ValuesBp(L)) && Typed(ValuesBp(L), ListV(values))
    ensures Entries(Cut(ValuesBp(L), ListV(values))) == CutAll(EntryBp(L), values[..Min(|values|, L.b - 1)])
  {
    hide EntryBp;
    SoundParts(L);
  }

  lemma ChildrenCut(L: Layout, children: seq<nat>)
    requires SoundLayout(L) && forall i :: 0 <= i < |children| ==> children[i] < Pow256(8)
    ensures Sound(ChildrenBp(L)) && Typed(ChildrenBp(L), ListV(ChildValues(children)))
    ensures ChildIds(Cut(ChildrenBp(L), ListV(ChildValues(children)))) == children[..Min(|children|, L.b)]
  {
    hide Pow256;
    SoundParts(L);
    ChildrenTyped(L, children);
    var vs := ChildValues(children);
    var cut := vs[..Min(|vs|, L.b)];
    CutAllIsIdentity(UintBp(8), cut);
    assert forall i :: 0 <= i < |cut| ==> Exact(UintBp(8), cut[i]);
    assert Cut(ChildrenBp(L), ListV(vs)) == ListV(cut);
  }

  // ---- blocks after writes ----

  lemma UsedByFlag(block: Block, flag: byte)
    requires block != []
    ensures InUse(Patched(block, 0, [flag])) <==> flag != 0
  {
  }

  /** Persist's three writes. */
  ghost function PersistedBlock(L: Layout, block: Block, values: seq<byte>, children: seq<byte>): Block
    requires SoundLayout(L) && |block| == L.padded
    requires |values| == Size(ValuesBp(L)) && |children| == Size(ChildrenBp(L))
  {
    SoundParts(L);
    Patched(Patched(Patched(block, 0, [1]), 1, values), 1 + Size(ValuesBp(L)), children)
  }

  lemma PersistedParts(L: Layout, block: Block, values: seq<byte>, children: seq<byte>)
    requires SoundLayout(L) && |block| == L.padded
    requires |values| == Size(ValuesBp(L)) && |children| == Size(ChildrenBp(L))
    ensures var after := PersistedBlock(L, block, values, children);
            InUse(after) && |after| == L.padded && ValuesPart(L, after) == values && ChildrenPart(L, after) == children
  {
    hide Size, Sound, Patched, ValuesBp, ChildrenBp;
    SoundParts(L);
    var m := Size(ValuesBp(L));
    var x := Patched(block, 0, [1]);
    var y := Patched(x, 1, values);
    var z := Patched(y, 1 + m, children);
    PatchIndex(block, 0, [1], 0);
    PatchIndex(x, 1, values, 0);
    PatchIndex(y, 1 + m, children, 0);
    PatchAt(x, 1, values);
    PatchLeft(y, 1 + m, children, 1, 1 + m);
    PatchAt(y, 1 + m, children);
  }

  lemma PersistedDecodes(L: Layout, node: Node<Value>, block: Block)
    requires SoundLayout(L) && Storable(L, node) && |block| == L.padded
    ensures Sound(ValuesBp(L)) && Sound(ChildrenBp(L))
    ensures Typed(ValuesBp(L), ListV(node.values)) && Typed(ChildrenBp(L), ListV(ChildValues(node.children)))
    ensures var values := Encoded(ValuesBp(L), ListV(node.values));
            var children := Encoded(ChildrenBp(L), ListV(ChildValues(node.children)));
            var after := PersistedBlock(L, block, values, children);
            InUse(after) && Decodable(L, after) && Decoded(L, node.id, after) == Stored(L, node)
  {
    hide Size, Sound, Typed, ValuesBp, ChildrenBp, EntryBp, To, From, Cut, CutAll, Readable, PersistedBlock, ValuesPart,
         ChildrenPart, Pow256, Encoded;
    SoundParts(L);
    EntriesCut(L, node.values);
    ChildrenCut(L, node.children);
    var v, c := ListV(node.values), ListV(ChildValues(node.children));
    PersistedParts(L, block, Encoded(ValuesBp(L), v), Encoded(ChildrenBp(L), c));
    Decodes(ValuesBp(L), v);
    Decodes(ChildrenBp(L), c);
    assert (node.children[..Min(|node.children|, L.b)] == []) <==> node.children == [];
  }

  lemma Decodes(bp: Blueprint, v: Value)
    requires Sound(bp) && Typed(bp, v)
    ensures Readable(bp, Encoded(bp, v)) && From(bp, Encoded(bp, v)) == Cut(bp, v)
  {
    hide Size, Sound, Typed, To, From, Cut, Readable;
    ToThenFrom(bp, v, Zeros(Size(bp)));
  }

  /** Writing the children alone leaves the entries, byte for byte. */
  lemma ChildrenRewritten(L: Layout, id: nat, block: Block, children: seq<nat>)
    requires Decodable(L, block) && |children| <= L.b && forall i :: 0 <= i < |children| ==> children[i] < Pow256(8)
    ensures Sound(ChildrenBp(L)) && Typed(ChildrenBp(L), ListV(ChildValues(children)))
    ensures 1 + Size(ValuesBp(L)) + Size(ChildrenBp(L)) <= |block|
    ensures var data := Encoded(ChildrenBp(L), ListV(ChildValues(children)));
            var after := Patched(Patched(block, 0, [1]), 1 + Size(ValuesBp(L)), data);
            && InUse(after) && Decodable(L, after) && ValuesPart(L, after) == ValuesPart(L, block)
            && Decoded(L, id, after) == Node(id, DecodedEntries(L, block), children, children == [])
  {
    hide Size, Sound, Typed, ValuesBp, ChildrenBp, EntryBp, To, From, Cut, CutAll, Readable, Pow256, Encoded, Patched;
    SoundParts(L);
    ChildrenCut(L, children);
    assert children[..Min(|children|, L.b)] == children;
    var c := ListV(ChildValues(children));
    Decodes(ChildrenBp(L), c);
    var m, data := Size(ValuesBp(L)), Encoded(ChildrenBp(L), c);
    var x := Patched(block, 0, [1]);
    var y := Patched(x, 1 + m, data);
    PatchIndex(block, 0, [1], 0);
    PatchIndex(x, 1 + m, data, 0);
    PatchRight(block, 0, [1], 1, 1 + m);
    PatchLeft(x, 1 + m, data, 1, 1 + m);
    PatchAt(x, 1 + m, data);
  }

  /** Copying the node part of a block copies the node. */
  lemma CopiedBlock(L: Layout, id: nat, from: Block, to: Block)
    requires Decodable(L, from) && InUse(from) && |to| == L.padded
    ensures NodeSize(L) <= L.padded
    ensures var after := Patched(to, 0, from[..NodeSize(L)]);
            InUse(after) && Decodable(L, after) && Decoded(L, id, after) == Decoded(L, id, from)
  {
    hide Size, Sound, ValuesBp, ChildrenBp, EntryBp, From, Readable, NodeSize, Patched;
    SoundParts(L);
    var n, m, k := NodeSize(L), Size(ValuesBp(L)), Size(ChildrenBp(L));
    var data := from[..n];
    var after := Patched(to, 0, data);
    PatchIndex(to, 0, data, 0);
    PatchAt(to, 0, data);
    SubSlice(after, 0, n, 1, 1 + m);
    SubSlice(after, 0, n, 1 + m, 1 + m + k);
    SubSlice(from, 0, n, 1, 1 + m);
    SubSlice(from, 0, n, 1 + m, 1 + m + k);
  }

  // ---- the bytes of a block ----

  /** A block with a node in it: the flag, the entries, the children, and what was behind them. */
  ghost function UsedBlock(L: Layout, node: Node<Value>, block: Block): Block {
    if !SoundLayout(L) || !Storable(L, node) || |block| != L.padded then block else
    PersistedDecodes(L, node, block);
    var values := Encoded(SliceBp(L.b - 1, TupleBp(L.key, L.value)), ListV(node.values));
    var children := Encoded(SliceBp(L.b, UintBp(8)), ListV(ChildValues(node.children)));
    SoundParts(L);
    [1] + values + children + block[1 + |values| + |children|..]
  }

  /** A free block: the flag, the next free id, and what was behind them. */
  ghost function FreedBlock(next: nat, block: Block): Block
    requires |block| >= 9
  {
    [0] + ToBytes(next, 8) + block[9..]
  }

  lemma UsedBytes(L: Layout, node: Node<Value>, block: Block)
    requires SoundLayout(L) && Storable(L, node) && |block| == L.padded
    ensures Sound(ValuesBp(L)) && Sound(ChildrenBp(L))
    ensures Typed(ValuesBp(L), ListV(node.values)) && Typed(ChildrenBp(L), ListV(ChildValues(node.children)))
    ensures UsedBlock(L, node, block)
         == PersistedBlock(L, block, Encoded(ValuesBp(L), ListV(node.values)),
                           Encoded(ChildrenBp(L), ListV(ChildValues(node.children))))
  {
    hide Sound, Typed, Size, Encoded, ChildValues, Patched;
    PersistedDecodes(L, node, block);
    SoundParts(L);
    var v := Encoded(ValuesBp(L), ListV(node.values));
    var c := Encoded(ChildrenBp(L), ListV(ChildValues(node.children)));
    ThreePatches(block, [1], v, c);
  }

  lemma ThreePatches(s: seq<byte>, x: seq<byte>, y: seq<byte>, z: seq<byte>)
    requires |x| + |y| + |z| <= |s|
    ensures Patched(Patched(Patched(s, 0, x), |x|, y), |x| + |y|, z) == x + y + z + s[|x| + |y| + |z|..]
  {
    hide Patched;
    PatchNext(s, 0, x, y);
    assert 0 + |x| == |x| && 0 + |x + y| == |x| + |y|;
    PatchNext(s, 0, x + y, z);
    FrontPatch(s, x + y + z);
  }

  lemma FrontPatch(s: seq<byte>, x: seq<byte>)
    requires |x| <= |s|
    ensures Patched(s, 0, x) == x + s[|x|..]
  {
  }

  lemma FreedBytes(block: Block, next: nat)
    requires |block| >= 9
    ensures FreedBlock(next, block) == Patched(Patched(block, 0, [0]), 1, ToBytes(next, 8))
  {
    hide Patched;
    PatchNext(block, 0, [0], ToBytes(next, 8));
    assert 0 + |[0 as byte]| == 1;
    FrontPatch(block, [0] + ToBytes(next, 8));
  }
}
