/** The file byte by byte: what stands where in a block, and in the metadata. */
module Formats {
  import opened Bytes
  import opened Blueprints
  import opened Shapes
  import opened Serializers
  import opened Blocks
  import opened NodeBlocks
  import opened Placements

  ghost function Fewer(n: nat, m: nat): nat {
    if n < m then n else m
  }

  /** How many bytes an entry takes. */
  ghost function EntrySize(L: Layout): nat {
    Size(L.key) + Size(L.value)
  }

  /** Where the children of a node are: behind the flag, the number of entries, and the room for b - 1 of them. */
  ghost function ChildrenAt(L: Layout): nat
    requires L.b > 0
  {
    5 + Times(EntrySize(L), L.b - 1)
  }

  lemma UsedParts(L: Layout, node: Node<Value>, block: Block)
    requires SoundLayout(L) && Storable(L, node) && |block| == L.padded
    ensures Sound(ValuesBp(L)) && Typed(ValuesBp(L), ListV(node.values))
    ensures Sound(ChildrenBp(L)) && Typed(ChildrenBp(L), ListV(ChildValues(node.children)))
    ensures var r, at := UsedBlock(L, node, block), ChildrenAt(L);
            var values := Encoded(ValuesBp(L), ListV(node.values));
            var children := Encoded(ChildrenBp(L), ListV(ChildValues(node.children)));
            && |values| == at - 1 && |children| == 4 + Times(8, L.b) && at + |children| <= |block| == |r|
            && r[0] == 1 && r[1..at] == values && r[at..at + |children|] == children
            && r[at + |children|..] == block[at + |children|..]
  {
    hide Sound, Typed, Encoded, Times, Decodable, Decoded, Stored, Storable, SoundLayout;
    SoundParts(L);
    PersistedDecodes(L, node, block);
    ValuesSize(L);
    var values := Encoded(ValuesBp(L), ListV(node.values));
    var children := Encoded(ChildrenBp(L), ListV(ChildValues(node.children)));
    FourPieces([1], values, children, block[1 + |values| + |children|..]);
    assert UsedBlock(L, node, block) == [1] + values + children + block[1 + |values| + |children|..];
  }

  lemma AtLeastTwo(L: Layout)
    requires SoundLayout(L)
    ensures L.b >= 2
  {
  }

  lemma ValuesSize(L: Layout)
    requires L.b > 0
    ensures Size(ValuesBp(L)) == ChildrenAt(L) - 1 && Size(ChildrenBp(L)) == 4 + Times(8, L.b)
  {
  }

  lemma FourPieces(w: seq<byte>, x: seq<byte>, y: seq<byte>, z: seq<byte>)
    ensures var r := w + x + y + z;
            && (w != [] ==> r[0] == w[0])
            && r[|w|..|w| + |x|] == x && r[|w| + |x|..|w| + |x| + |y|] == y && r[|w| + |x| + |y|..] == z
  {
  }

  lemma ZeroWindow(n: nat, at: nat, m: nat)
    requires at + m <= n
    ensures Zeros(n)[at..at + m] == Zeros(m)
  {
  }

  lemma EntriesFormat(L: Layout, vs: seq<Value>, i: nat, j: nat)
    requires L.b > 0 && Sound(ValuesBp(L)) && Typed(ValuesBp(L), ListV(vs)) && j < 4
    ensures var r, e, n := Encoded(ValuesBp(L), ListV(vs)), EntrySize(L), Fewer(|vs|, L.b - 1);
            && 4 <= |r| && r[j] == Digit256(n, 4, j)
            && (i < n ==>
                  && 4 + Times(e, i) + e <= |r| && Sound(EntryBp(L)) && Typed(EntryBp(L), vs[i])
                  && r[4 + Times(e, i)..4 + Times(e, i) + e] == Encoded(EntryBp(L), vs[i]))
  {
    hide Sound, Typed, To, Times, Digit256, Zeros, Size;
    SlicePlaced(L.b - 1, EntryBp(L), vs, Zeros(Size(ValuesBp(L))), i);
    EntryBytes(L);
    var r := Encoded(ValuesBp(L), ListV(vs));
    assert r == To(SliceBp(L.b - 1, EntryBp(L)), ListV(vs), Zeros(Size(ValuesBp(L))));
    var here: nat := j;
    assert r[here] == Digit256(Fewer(|vs|, L.b - 1), 4, here);
    if i < Fewer(|vs|, L.b - 1) {
      ZeroWindow(Size(ValuesBp(L)), 4 + Times(EntrySize(L), i), EntrySize(L));
    }
  }

  lemma EntryBytes(L: Layout)
    ensures Size(EntryBp(L)) == EntrySize(L)
  {
  }

  lemma ChildrenFormat(L: Layout, children: seq<nat>, i: nat, j: nat, k: nat)
    requires Sound(ChildrenBp(L)) && Typed(ChildrenBp(L), ListV(ChildValues(children))) && L.b > 0 && j < 4 && k < 8
    ensures var r, m := Encoded(ChildrenBp(L), ListV(ChildValues(children))), Fewer(|children|, L.b);
            && 4 <= |r| && r[j] == Digit256(m, 4, j)
            && (i < m ==> 4 + 8 * i + 8 <= |r| && r[4 + 8 * i + k] == Digit256(children[i], 8, k))
  {
    hide Typed, To, Times, Digit256, Zeros;
    var vs, d := ChildValues(children), Zeros(Size(ChildrenBp(L)));
    SlicePlaced(L.b, UintBp(8), vs, d, i);
    var r := Encoded(ChildrenBp(L), ListV(vs));
    assert r == To(SliceBp(L.b, UintBp(8)), ListV(vs), d);
    var here: nat := j;
    assert r[here] == Digit256(Fewer(|children|, L.b), 4, here);
    if i < Fewer(|children|, L.b) {
      TimesIsProduct(8, i);
      var at := 4 + 8 * i;
      ScalarPlaced(UintBp(8), vs[i], d[at..at + 8], k);
      assert r[at + k] == r[at..at + 8][k];
    }
  }

  /** A node in its block: a flag that is one; the number of entries in four bytes, the entries side by side; the number
      of children in four bytes, their ids in eight bytes each. */
  lemma NodeFormat(L: Layout, node: Node<Value>, block: Block, i: nat, j: nat, k: nat)
    requires SoundLayout(L) && Storable(L, node) && |block| == L.padded && j < 4 && k < 8
    ensures var r, e, at := UsedBlock(L, node, block), EntrySize(L), ChildrenAt(L);
            var n, m := Fewer(|node.values|, L.b - 1), Fewer(|node.children|, L.b);
            && at + 4 + Times(8, L.b) <= |r| && r[0] == 1
            && r[1 + j] == Digit256(n, 4, j)
            && r[at + j] == Digit256(m, 4, j)
            && (i < n ==>
                  && 5 + Times(e, i) + e <= at && Sound(EntryBp(L)) && Typed(EntryBp(L), node.values[i])
                  && r[5 + Times(e, i)..5 + Times(e, i) + e] == Encoded(EntryBp(L), node.values[i]))
            && (i < m ==> 8 * i + k < Times(8, L.b) && r[at + 4 + 8 * i + k] == Digit256(node.children[i], 8, k))
  {
    hide Sound, Typed, To, Times, Digit256, UsedBlock, ValuesBp, ChildrenBp, Storable, SoundLayout;
    UsedParts(L, node, block);
    AtLeastTwo(L);
    EntriesFormat(L, node.values, i, j);
    var r, e, at := UsedBlock(L, node, block), EntrySize(L), ChildrenAt(L);
    if i < Fewer(|node.values|, L.b - 1) {
      Inside(r, 1, at, 4 + Times(e, i), e);
    }
    TimesIsProduct(8, L.b);
    ChildrenFormat(L, node.children, i, j, k);
  }

  /** A free block: a flag that is zero, and the next free id in eight bytes. */
  lemma FreeFormat(next: nat, block: Block, k: nat)
    requires |block| >= 9 && k < 8
    ensures var r := FreedBlock(next, block); r[0] == 0 && r[1 + k] == Digit256(next, 8, k) && r[9..] == block[9..]
  {
    hide ToBytes, Pow256;
    ByteAt(next, 8, k);
  }

  /** The last sixteen bytes of the metadata: the depth, and the first free id. */
  lemma MetadataFormat(meta: seq<byte>, depth: nat, freeId: nat, k: nat)
    requires meta == ToBytes(depth, 8) + ToBytes(freeId, 8) && k < 8
    ensures |meta| == 16 && meta[k] == Digit256(depth, 8, k) && meta[8 + k] == Digit256(freeId, 8, k)
  {
    hide ToBytes, Pow256;
    ByteAt(depth, 8, k);
    ByteAt(freeId, 8, k);
  }
}
