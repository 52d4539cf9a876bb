/** The data file as equal blocks: where a block lies, what a write into one block does, and what a block says. */
module Blocks {
  import opened Bytes
  import opened Blueprints

  type Block = seq<byte>

  /** Metadata of two eight-byte integers ends at base, where block 0 starts. */
  datatype Layout = Layout(base: nat, padded: nat, b: nat, key: Blueprint, value: Blueprint)

  function EntryBp(L: Layout): Blueprint {
    TupleBp(L.key, L.value)
  }

  function ValuesBp(L: Layout): Blueprint
    requires L.b > 0
  {
    SliceBp(L.b - 1, EntryBp(L))
  }

  function ChildrenBp(L: Layout): Blueprint {
    SliceBp(L.b, UintBp(8))
  }

  /** One byte says whether the block is in use; a free block needs room for one id. */
  function NodeSize(L: Layout): nat
    requires L.b > 0
  {
    var size := Size(ValuesBp(L)) + Size(ChildrenBp(L));
    (if size < 8 then 8 else size) + 1
  }

  ghost predicate SoundLayout(L: Layout) {
    2 <= L.b < UINT32_CAP - 1 && Sound(L.key) && Sound(L.value) && NodeSize(L) <= L.padded && L.base >= 16
  }

  lemma SoundParts(L: Layout)
    requires SoundLayout(L)
    ensures Sound(EntryBp(L)) && Sound(ValuesBp(L)) && Sound(ChildrenBp(L))
    ensures 1 + Size(ValuesBp(L)) + Size(ChildrenBp(L)) <= NodeSize(L) <= L.padded && 9 <= NodeSize(L)
  {
  }

  // ---- places in the file ----

  function Start(L: Layout, id: nat): nat {
    L.base + Times(L.padded, id)
  }

  lemma StartIsOffset(L: Layout, id: nat)
    ensures Start(L, id) == L.base + id * L.padded
  {
    TimesIsProduct(L.padded, id);
  }

  lemma StartOrder(L: Layout, i: nat, j: nat)
    requires i < j
    ensures Start(L, i) + L.padded == Start(L, i + 1) <= Start(L, j)
  {
    TimesGrows(L.padded, i + 1, j);
  }

  lemma BlockCount(L: Layout, n: nat)
    requires L.padded > 0
    ensures (Start(L, n) - L.base) / L.padded == n
  {
    TimesIsProduct(L.padded, n);
    Cancelled(L.padded, n);
  }

  lemma Cancelled(p: nat, n: nat)
    requires p > 0
    ensures p * n / p == n
  {
    var d := n - p * n / p;
    assert p * d == p * n % p;
    AtLeastOnce(p, d);
  }

  lemma AtLeastOnce(p: int, d: int)
    requires p > 0
    ensures d >= 1 ==> p * d >= p
    ensures d <= -1 ==> p * d <= -p
  {
  }

  /** The file consists of a prefix and of these blocks. */
  ghost predicate Mirrors(L: Layout, file: seq<byte>, blocks: seq<Block>) {
    && |file| == Start(L, |blocks|)
    && forall i :: 0 <= i < |blocks| ==> |blocks[i]| == L.padded && BlockAt(L, file, i) == blocks[i]
  }

  ghost function BlockAt(L: Layout, file: seq<byte>, i: nat): Block {
    if Start(L, i) + L.padded <= |file| then file[Start(L, i)..Start(L, i) + L.padded] else []
  }

  lemma BlockInside(L: Layout, file: seq<byte>, blocks: seq<Block>, i: nat)
    requires Mirrors(L, file, blocks) && i < |blocks|
    ensures Start(L, i) + L.padded <= |file| && file[Start(L, i)..Start(L, i) + L.padded] == blocks[i]
  {
    StartOrder(L, i, |blocks|);
  }

  lemma SubSlice(s: seq<byte>, at: nat, n: nat, i: nat, j: nat)
    requires at + n <= |s| && i <= j <= n
    ensures s[at..at + n][i..j] == s[at + i..at + j]
  {
    var x, y := s[at..at + n][i..j], s[at + i..at + j];
    assert forall k :: 0 <= k < j - i ==> x[k] == s[at..at + n][i + k] == s[at + (i + k)] == y[k];
  }

  lemma ReadInBlock(L: Layout, file: seq<byte>, blocks: seq<Block>, id: nat, i: nat, j: nat)
    requires Mirrors(L, file, blocks) && id < |blocks| && i <= j <= L.padded
    ensures Start(L, id) + j <= |file| && file[Start(L, id) + i..Start(L, id) + j] == blocks[id][i..j]
  {
    BlockInside(L, file, blocks, id);
    SubSlice(file, Start(L, id), L.padded, i, j);
  }

  lemma PatchInside(s: seq<byte>, at: nat, n: nat, skip: nat, data: seq<byte>)
    requires at + n <= |s| && skip + |data| <= n
    ensures Patched(s, at + skip, data)[at..at + n] == Patched(s[at..at + n], skip, data)
  {
    var x, y := Patched(s, at + skip, data)[at..at + n], Patched(s[at..at + n], skip, data);
    forall i | 0 <= i < n ensures x[i] == y[i] {
      PatchIndex(s, at + skip, data, at + i);
      PatchIndex(s[at..at + n], skip, data, i);
    }
  }

  lemma OtherBlock(L: Layout, file: seq<byte>, blocks: seq<Block>, id: nat, skip: nat, data: seq<byte>, i: nat)
    requires Mirrors(L, file, blocks) && id < |blocks| && skip + |data| <= L.padded && i < |blocks| && i != id
    ensures Start(L, id) + skip + |data| <= |file|
            && BlockAt(L, Patched(file, Start(L, id) + skip, data), i) == blocks[i]
  {
    hide Patched, Start, Mirrors;
    BlockInside(L, file, blocks, id);
    BlockInside(L, file, blocks, i);
    var at := Start(L, id);
    if i < id {
      StartOrder(L, i, id);
      PatchLeft(file, at + skip, data, Start(L, i), Start(L, i) + L.padded);
    } else {
      StartOrder(L, id, i);
      PatchRight(file, at + skip, data, Start(L, i), Start(L, i) + L.padded);
    }
  }

  /** A write within one block leaves the metadata and all other blocks as they are. */
  lemma PatchBlock(L: Layout, file: seq<byte>, blocks: seq<Block>, id: nat, skip: nat, data: seq<byte>)
    requires Mirrors(L, file, blocks) && id < |blocks| && skip + |data| <= L.padded
    ensures Start(L, id) + skip + |data| <= |file| && |blocks[id]| == L.padded
    ensures var file' := Patched(file, Start(L, id) + skip, data);
            && Mirrors(L, file', blocks[id := Patched(blocks[id], skip, data)])
            && file'[..L.base] == file[..L.base]
  {
    hide Patched, Start;
    BlockInside(L, file, blocks, id);
    var at := Start(L, id);
    var file' := Patched(file, at + skip, data);
    assert L.base <= at by { StartBase(L, id); }
    forall i | 0 <= i < |blocks| && i != id ensures BlockAt(L, file', i) == blocks[i] {
      OtherBlock(L, file, blocks, id, skip, data, i);
    }
    PatchInside(file, at, L.padded, skip, data);
    PatchLeft(file, at + skip, data, 0, L.base);
    assert file'[0..L.base] == file'[..L.base] && file[0..L.base] == file[..L.base];
  }

  lemma StartBase(L: Layout, id: nat)
    ensures L.base <= Start(L, id)
  {
  }

  lemma PatchMetadata(L: Layout, file: seq<byte>, blocks: seq<Block>, at: nat, data: seq<byte>)
    requires Mirrors(L, file, blocks) && at + |data| <= L.base
    ensures L.base <= |file| && Mirrors(L, Patched(file, at, data), blocks)
    ensures Patched(file, at, data)[..L.base] == Patched(file[..L.base], at, data)
  {
    hide Patched, Start;
    StartBase(L, |blocks|);
    var file' := Patched(file, at, data);
    forall i | 0 <= i < |blocks| ensures BlockAt(L, file', i) == blocks[i] {
      BlockInside(L, file, blocks, i);
      StartBase(L, i);
      PatchRight(file, at, data, Start(L, i), Start(L, i) + L.padded);
    }
    PatchInside(file, 0, L.base, at, data);
    assert file'[0..0 + L.base] == file'[..L.base] && file[0..0 + L.base] == file[..L.base];
  }

  lemma AppendBlock(L: Layout, file: seq<byte>, blocks: seq<Block>, block: Block)
    requires Mirrors(L, file, blocks) && |block| == L.padded
    ensures Mirrors(L, file + block, blocks + [block])
    ensures L.base <= |file| && (file + block)[..L.base] == file[..L.base]
  {
    hide Start;
    var file', blocks' := file + block, blocks + [block];
    StartBase(L, |blocks|);
    StartOrder(L, |blocks|, |blocks| + 1);
    forall i | 0 <= i < |blocks'| ensures BlockAt(L, file', i) == blocks'[i] {
      if i < |blocks| {
        BlockInside(L, file, blocks, i);
        assert file'[Start(L, i)..Start(L, i) + L.padded] == file[Start(L, i)..Start(L, i) + L.padded];
      } else {
        assert file'[|file|..|file| + L.padded] == block;
      }
    }
  }

  lemma TruncateBlocks(L: Layout, file: seq<byte>, blocks: seq<Block>, n: nat)
    requires Mirrors(L, file, blocks) && n <= |blocks|
    ensures L.base <= Start(L, n) <= |file| && Mirrors(L, file[..Start(L, n)], blocks[..n])
    ensures file[..Start(L, n)][..L.base] == file[..L.base]
  {
    hide Start;
    StartBase(L, n);
    if n < |blocks| {
      StartOrder(L, n, |blocks|);
    }
    var file' := file[..Start(L, n)];
    forall i | 0 <= i < n ensures BlockAt(L, file', i) == blocks[i] {
      BlockInside(L, file, blocks, i);
      StartOrder(L, i, n);
      assert file'[Start(L, i)..Start(L, i) + L.padded] == file[Start(L, i)..Start(L, i) + L.padded];
    }
  }
}
