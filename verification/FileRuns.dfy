/** The tree over a file: runs, compaction between two runs, and the entry that Delete loses. */
module FileRuns {
  import opened Blueprints
  import opened Serializers
  import opened Placements
  import opened Bytes
  import opened Shapes
  import Frames
  import opened Entries
  import opened Search
  import opened Blocks
  import opened Encodings
  import opened Storages
  import opened Deletes
  import opened Trees
  import opened Runs
  import opened Heights
  import opened Occupancy
  import opened Renaming
  import Persistent

  // ---- entries as the file encodes them ----

  function EncodedEntry<V>(encode: V -> Value, e: Entry<V>): Value {
    PairV(IntV(e.key as int), encode(e.value))
  }

  function DecodedEntry<V>(decode: Value -> V, v: Value): Entry<V> {
    if v.PairV? && v.first.IntV? && -0x8000_0000_0000_0000 <= v.first.i < 0x8000_0000_0000_0000
    then Entry(v.first.i as Key, decode(v.second))
    else Entry(0, decode(v))
  }

  /** Keys are written in eight bytes, and so every entry comes back. */
  lemma EntryCoding<V(!new)>(bp: Blueprint, encode: V -> Value, decode: Value -> V)
    requires Coding(bp, encode, decode)
    ensures Coding(TupleBp(IntBp(8), bp), (e: Entry<V>) => EncodedEntry(encode, e),
                   (v: Value) => DecodedEntry(decode, v))
  {
    EightBytes();
    forall e: Entry<V>
      ensures Codes(TupleBp(IntBp(8), bp), EncodedEntry(encode, e))
      ensures DecodedEntry(decode, EncodedEntry(encode, e)) == e
    {
      KeyCodes(e.key);
      assert Codes(bp, encode(e.value)) && decode(encode(e.value)) == e.value;
      PairCodes(bp, IntV(e.key as int), encode(e.value));
    }
  }

  /** Values that come back as they were: for one, the booleans. */
  lemma BoolsComeBack()
    ensures Coding(BoolBp, (b: bool) => BoolV(b), (v: Value) => v.BoolV? && v.b)
  {
    forall b: bool ensures Codes(BoolBp, BoolV(b)) {
    }
  }

  lemma KeyCodes(k: Key)
    ensures Codes(IntBp(8), IntV(k as int))
  {
    EightBytes();
  }

  lemma PairCodes(bp: Blueprint, x: Value, y: Value)
    requires Codes(IntBp(8), x) && Codes(bp, y)
    ensures Codes(TupleBp(IntBp(8), bp), PairV(x, y))
  {
    hide Pow256, SoundFields, TypedFields, Size;
  }

  /** An entry in the file: the key in eight bytes, big-endian and in two's complement, and the value. */
  lemma EntryFormat<V>(bp: Blueprint, encode: V -> Value, e: Entry<V>, k: nat)
    requires Codes(bp, encode(e.value)) && k < 8
    ensures var tuple, v := TupleBp(IntBp(8), bp), EncodedEntry(encode, e);
            && Sound(tuple) && Typed(tuple, v) && |Encoded(tuple, v)| == 8 + Size(bp)
            && Encoded(tuple, v)[k]
               == Digit256(if e.key < 0 then e.key as int + 0x1_0000_0000_0000_0000 else e.key as int, 8, k)
            && Encoded(tuple, v)[8..] == Encoded(bp, encode(e.value))
  {
    hide Typed, To, Digit256;
    var tuple, key, d := TupleBp(IntBp(8), bp), IntV(e.key as int), Zeros(8 + Size(bp));
    EightBytes();
    KeyCodes(e.key);
    PairCodes(bp, key, encode(e.value));
    TuplePlaced(IntBp(8), bp, key, encode(e.value), d);
    ScalarPlaced(IntBp(8), key, d[..8], k);
    assert d[8..] == Zeros(Size(bp));
    var r := Encoded(tuple, EncodedEntry(encode, e));
    assert r[k] == r[..8][k];
  }

  // ---- a new file ----

  /** The length of a file of n blocks at most, whatever the padding. */
  ghost function LongestFile(b: nat, blockSize: int, header: seq<byte>, bp: Blueprint, n: nat): nat
    requires b > 0
  {
    |header| + 16 + Times(NodeSize(Layout(0, 0, b, IntBp(8), bp)) + (if blockSize > 0 then blockSize else 0), n)
  }

  lemma {:induction false} WiderBlocks(p: nat, q: nat, n: nat)
    requires p <= q
    ensures Times(p, n) <= Times(q, n)
  {
    if n > 0 {
      WiderBlocks(p, q, n - 1);
    }
  }

  /** A new file with an empty tree in it, and with space for n blocks. */
  method StartOnFile<V(!new)>(a: uint, b: uint, blockSize: int, header: seq<byte>, bp: Blueprint, encode: V -> Value,
                              decode: Value -> V, ghost n: nat)
      returns (tree: Tree?<V>)
    requires a >= 2 && a * 2 - 1 <= b && Sound(bp) && Coding(bp, encode, decode)
    requires n > 0 && LongestFile(b, blockSize, header, bp, n) <= Persistent.MAX_FILE
    ensures tree == null <==> b >= 0xFFFF_FFFF
    ensures tree != null ==>
      && fresh(tree) && fresh(tree.storage) && fresh(tree.storage.repr) && tree.a == a && tree.b == b
      && tree.storage.backing.File? && tree.Valid() && tree.depth == 1 && tree.Map() == map[]
      && tree.storage.SpaceFor(n)
  {
    hide TreeStored, Unfold, InOrder, NodeStorage.Valid, NodeSize, Persistent.PersistentStorage.Valid,
         Persistent.PersistentStorage.Nodes, Coding, EncodedEntry, DecodedEntry;
    ghost var most := NodeSize(Layout(0, 0, b, IntBp(8), bp)) + if blockSize > 0 then blockSize else 0;
    assert Times(most, n) == most + Times(most, n - 1);
    var file := Persistent.PersistentStorage.NewPersistentStorage(b, blockSize, header, IntBp(8), bp);
    if file == null {
      return null;
    }
    EntryCoding(bp, encode, decode);
    var storage := new NodeStorage<Entry<V>>.OnFile(file, e => EncodedEntry(encode, e), v => DecodedEntry(decode, v));
    WiderBlocks(file.layout.padded, most, n);
    TimesGrows(file.layout.padded, 1, n);
    assert Times(file.layout.padded, 1) == file.layout.padded;
    tree := Tree<V>.NewTree(a, b, storage);
    EmptyTree(storage.nodes, a, b);
  }

  // ---- what a run may leave ----

  ghost predicate OnlyInserts<V>(ops: seq<Op<V>>) {
    forall i :: 0 <= i < |ops| ==> ops[i].InsertOp?
  }

  /** The content m may become after the operations. */
  ghost predicate LeavesAll<V(!new)>(m: map<Key, V>, ops: seq<Op<V>>, after: map<Key, V>)
    decreases |ops|, 0
  {
    if ops == [] then after == m else Follows(m, ops[..|ops| - 1], ops[|ops| - 1], after)
  }

  ghost predicate Follows<V(!new)>(m: map<Key, V>, ops: seq<Op<V>>, op: Op<V>, after: map<Key, V>)
    decreases |ops|, 1
  {
    exists before :: LeavesAll(m, ops, before) && Leaves(before, op, after)
  }

  lemma LeavesNext<V(!new)>(m: map<Key, V>, ops: seq<Op<V>>, i: nat, before: map<Key, V>, after: map<Key, V>)
    requires i < |ops| && LeavesAll(m, ops[..i], before) && Leaves(before, ops[i], after)
    ensures LeavesAll(m, ops[..i + 1], after)
  {
    hide Leaves;
    assert ops[..i + 1][..i] == ops[..i];
  }

  /** Without deletions there is one content that a run can leave, that of the plain map. */
  lemma {:induction false} InsertsAreExact<V(!new)>(m: map<Key, V>, ops: seq<Op<V>>, after: map<Key, V>)
    requires LeavesAll(m, ops, after) && OnlyInserts(ops)
    ensures after == AppliedAll(m, ops)
    decreases |ops|
  {
    if ops != [] {
      var n := |ops| - 1;
      assert Follows(m, ops[..n], ops[n], after);
      var before :| LeavesAll(m, ops[..n], before) && Leaves(before, ops[n], after);
      assert ops[n].InsertOp?;
      InsertsAreExact(m, ops[..n], before);
    }
  }

  /** The run without its deletions. */
  ghost function Inserts<V>(ops: seq<Op<V>>): seq<Op<V>> {
    if ops == [] then []
    else
      var n := |ops| - 1;
      Inserts(ops[..n]) + if ops[n].InsertOp? then [ops[n]] else []
  }

  ghost function Deletions<V>(ops: seq<Op<V>>): nat {
    if ops == [] then 0
    else
      var n := |ops| - 1;
      Deletions(ops[..n]) + if ops[n].InsertOp? then 0 else 1
  }

  ghost predicate Within<V>(x: map<Key, V>, y: map<Key, V>) {
    forall k :: k in x ==> k in y && y[k] == x[k]
  }

  ghost function Lost<V>(all: map<Key, V>, left: map<Key, V>): set<Key> {
    all.Keys - left.Keys
  }

  /** A run invents nothing, brings no old value back, and loses one entry for each deletion at most. */
  lemma {:induction false} LossesAreBounded<V(!new)>(m: map<Key, V>, ops: seq<Op<V>>, after: map<Key, V>)
    requires LeavesAll(m, ops, after)
    ensures var all := AppliedAll(m, Inserts(ops)); Within(after, all) && |Lost(all, after)| <= Deletions(ops)
    decreases |ops|
  {
    hide AppliedAll, Leaves, Within, Lost;
    if ops == [] {
      NothingLost(m);
    } else {
      var n := |ops| - 1;
      var op := ops[n];
      assert Follows(m, ops[..n], op, after);
      var before :| LeavesAll(m, ops[..n], before) && Leaves(before, op, after);
      LossesAreBounded(m, ops[..n], before);
      var all := AppliedAll(m, Inserts(ops[..n]));
      if op.InsertOp? {
        InsertsMore(m, Inserts(ops[..n]), op);
        InsertLosesNone(all, before, op, after);
      } else {
        assert Inserts(ops) == Inserts(ops[..n]);
        DeletionLosesOne(all, before, op, after);
      }
    }
  }

  lemma NothingLost<V>(m: map<Key, V>)
    ensures Within(m, AppliedAll(m, [])) && |Lost(AppliedAll(m, []), m)| == 0
  {
    assert Lost(m, m) == {};
  }

  lemma InsertLosesNone<V(!new)>(all: map<Key, V>, before: map<Key, V>, op: Op<V>, after: map<Key, V>)
    requires Within(before, all) && Leaves(before, op, after) && op.InsertOp?
    ensures Within(after, Applied(all, op)) && |Lost(Applied(all, op), after)| <= |Lost(all, before)|
  {
    assert Lost(Applied(all, op), after) <= Lost(all, before);
    Fewer(Lost(Applied(all, op), after), Lost(all, before));
  }

  lemma DeletionLosesOne<V(!new)>(all: map<Key, V>, before: map<Key, V>, op: Op<V>, after: map<Key, V>)
    requires Within(before, all) && Leaves(before, op, after) && op.DeleteOp?
    ensures Within(after, all) && |Lost(all, after)| <= |Lost(all, before)| + 1
  {
    var p := op.key;
    if after != Applied(before, op) {
      p :| Predecessor(before, op.key, p) && after == before - {p};
    }
    assert after == before - {p};
    assert Lost(all, after) <= Lost(all, before) + {p};
    Fewer(Lost(all, after), Lost(all, before) + {p});
  }

  lemma InsertsMore<V>(m: map<Key, V>, ops: seq<Op<V>>, op: Op<V>)
    ensures AppliedAll(m, ops + [op]) == Applied(AppliedAll(m, ops), op)
  {
    assert (ops + [op])[..|ops|] == ops;
  }

  lemma {:induction false} Fewer<T>(x: set<T>, y: set<T>)
    requires x <= y
    ensures |x| <= |y|
    decreases x
  {
    if e :| e in x {
      Fewer(x - {e}, y - {e});
    }
  }

  // ---- runs over a file ----

  /** Blocks that suffice for all that a run inserts suffice for what it has stored so far. */
  lemma StepSuffices<V>(m: map<Key, V>, ops: seq<Op<V>>, i: nat, now: map<Key, V>, n: nat, a: nat)
    requires i < |ops| && ops[i].InsertOp? && a > 0 && Within(now, AppliedAll(m, Inserts(ops[..i])))
    requires Suffices(n, a, |AppliedAll(m, Inserts(ops))|)
    ensures Suffices(n, a, |Applied(now, ops[i])|)
  {
    hide AppliedAll, Inserts;
    InsertsStep(ops, i);
    InsertsMore(m, Inserts(ops[..i]), ops[i]);
    InsertsGrow(m, ops, i + 1);
    Fewer(Applied(now, ops[i]).Keys, AppliedAll(m, Inserts(ops)).Keys);
  }

  lemma InsertsStep<V>(ops: seq<Op<V>>, i: nat)
    requires i < |ops|
    ensures Inserts(ops[..i + 1]) == Inserts(ops[..i]) + if ops[i].InsertOp? then [ops[i]] else []
  {
    assert ops[..i + 1][..i] == ops[..i];
  }

  lemma {:induction false} KeptInserts<V>(ops: seq<Op<V>>)
    requires OnlyInserts(ops)
    ensures Inserts(ops) == ops
    decreases |ops|
  {
    if ops != [] {
      var n := |ops| - 1;
      assert ops[n].InsertOp?;
      KeptInserts(ops[..n]);
      assert ops[..n] + [ops[n]] == ops;
    }
  }

  /** No insertion takes a key away. */
  lemma {:induction false} InsertsGrow<V>(m: map<Key, V>, ops: seq<Op<V>>, i: nat)
    requires i <= |ops|
    ensures AppliedAll(m, Inserts(ops[..i])).Keys <= AppliedAll(m, Inserts(ops)).Keys
    decreases |ops| - i
  {
    hide AppliedAll, Inserts;
    if i == |ops| {
      assert ops[..i] == ops;
    } else {
      InsertsStep(ops, i);
      if ops[i].InsertOp? {
        InsertsMore(m, Inserts(ops[..i]), ops[i]);
      } else {
        assert Inserts(ops[..i]) + [] == Inserts(ops[..i]);
      }
      InsertsGrow(m, ops, i + 1);
    }
  }

  /** With one leaf there is nothing that Delete writes into an inner node. */
  lemma LeafInPlace<V(!new)>(tree: Tree<V>, key: Key)
    requires tree.Valid() && tree.depth == 1
    ensures tree.InPlace(key)
  {
    hide NodeStorage.Valid, InOrder, Holds, Sorted;
  }

  /** One operation, possibly with a compaction before it. With even b the tree stays a leaf, and every operation is
      that of the plain map until the leaf is full. */
  method ApplyOnFile<V(!new)>(tree: Tree<V>, op: Op<V>, compact: bool, ghost n: nat) returns (status: Status)
    requires tree.Valid() && tree.storage.backing.File? && tree.storage.SpaceFor(n)
    requires op.InsertOp? ==> Suffices(n, tree.a, |Applied(tree.Map(), op)|)
    requires tree.b % 2 == 0 ==> tree.depth == 1
    modifies tree, tree.storage, tree.storage.repr
    ensures status == Panic <==> tree.b % 2 == 0 && op.InsertOp? && |Applied(old(tree.Map()), op)| >= tree.b
    ensures status == Done || status == Panic
    ensures status == Done ==> tree.Valid() && tree.storage.SpaceFor(n)
    ensures status == Done ==> Leaves(old(tree.Map()), op, tree.Map())
    ensures status == Done && tree.b % 2 == 0 ==>
      tree.depth == 1 && |tree.Map()| < tree.b && tree.Map() == Applied(old(tree.Map()), op)
  {
    hide Tree.Valid, Tree.Map, Tree.NeedsSplit, Tree.InPlace, NodeStorage.SpaceFor, Leaves, Suffices;
    if compact {
      var _ := Compact(tree);
    }
    if tree.b % 2 == 0 {
      LeafInPlace(tree, op.key);
      if op.InsertOp? {
        LeafPanics(tree, op.key, op.value);
      }
    }
    status := Apply(tree, op, n);
    if status == Done {
      DepthPositive(tree);
      if tree.b % 2 == 0 {
        Smaller(tree);
      }
    }
  }

  /** A run over a file, with compactions before some of its operations. It always completes when b is odd. With even b
      the tree must be new; then the run panics if and only if the plain map would at some point hold b entries. What is
      left is what the operations may leave; without deletions, or with even b, that of the plain map. The file never
      has more blocks than suffice for all the keys that were ever in the tree, at a - 1 for each block. */
  method RunOnFile<V(!new)>(tree: Tree<V>, ops: seq<Op<V>>, compactAt: set<nat>, ghost n: nat) returns (status: Status)
    requires tree.Valid() && tree.storage.backing.File?
    requires tree.storage.SpaceFor(n) && Suffices(n, tree.a, |AppliedAll(tree.Map(), Inserts(ops))|)
    requires tree.b % 2 == 0 ==> tree.depth == 1 && tree.Map() == map[]
    modifies tree, tree.storage, tree.storage.repr
    ensures status == if tree.b % 2 == 0 && Fills(ops, tree.b) then Panic else Done
    ensures status == Done ==> tree.Valid() && LeavesAll(old(tree.Map()), ops, tree.Map()) && tree.storage.SpaceFor(n)
    ensures status == Done && (tree.b % 2 == 0 || OnlyInserts(ops)) ==>
      tree.Map() == AppliedAll(old(tree.Map()), ops)
  {
    hide Tree.Valid, Tree.Map, Tree.NeedsSplit, AppliedAll, Applied, Fills, Leaves, LeavesAll, Inserts, Lost, Within,
         Deletions, Suffices, NodeStorage.SpaceFor;
    ghost var m := tree.Map();
    status := Done;
    Bounds(tree);
    RunStart(m, ops, tree.b);
    var i := 0;
    while i < |ops|
      invariant 0 <= i <= |ops| && tree.Valid() && status == Done && tree.storage.SpaceFor(n)
      invariant LeavesAll(m, ops[..i], tree.Map())
      invariant tree.b % 2 == 0 ==>
        tree.depth == 1 && tree.Map() == AppliedAll(m, ops[..i]) && !Fills(ops[..i], tree.b)
    {
      NextOp(ops, i, tree.b);
      LossesAreBounded(m, ops[..i], tree.Map());
      ghost var before := tree.Map();
      if ops[i].InsertOp? {
        StepSuffices(m, ops, i, before, n, tree.a);
      }
      status := ApplyOnFile(tree, ops[i], i in compactAt, n);
      if status != Done {
        return;
      }
      LeavesNext(m, ops, i, before, tree.Map());
      i := i + 1;
    }
    assert ops[..|ops|] == ops;
    if OnlyInserts(ops) {
      InsertsAreExact(m, ops, tree.Map());
    }
  }

  lemma RunStart<V(!new)>(m: map<Key, V>, ops: seq<Op<V>>, b: nat)
    requires b > 0
    ensures ops[..0] == [] && ops[0..] == ops && LeavesAll(m, ops[..0], m) && AppliedAll(m, ops[..0]) == m
    ensures !Fills(ops[..0], b)
  {
    NoOps<V>(b);
  }

  lemma Bounds<V(!new)>(tree: Tree<V>)
    requires tree.Valid()
    ensures tree.a > 0 && tree.b > 0
  {
    hide NodeStorage.Valid, TreeStored;
  }

  /** Compaction between two operations: it may always be called, it leaves no gap in the file, and the tree answers
      afterwards as before. Every block but one then holds a - 1 to b - 1 entries. */
  method Compact<V(!new)>(tree: Tree<V>) returns (status: Persistent.Status)
    requires tree.Valid() && tree.storage.backing.File?
    modifies tree.storage, tree.storage.repr
    ensures tree.Valid() && status == Persistent.Done
    ensures tree.Pairs() == old(tree.Pairs()) && tree.Map() == old(tree.Map()) && tree.depth == old(tree.depth)
    ensures forall n :: old(tree.storage.SpaceFor(n)) ==> tree.storage.SpaceFor(n)
    ensures var n := |old(tree.storage.nodes).Keys|;
            && (forall id: nat :: id in tree.storage.nodes <==> id < n)
            && |tree.storage.backing.file.file| == Start(tree.storage.backing.file.layout, n)
            && Dense(n, tree.a, tree.b, |tree.Map()|)
  {
    hide NodeStorage.Valid, TreeStored, Unfold, InOrder, Renamed, Holds, RenamedShape, Uniform, Bounded, Start, Sorted,
         Dense, NodeStorage.SpaceFor;
    TreeSize(tree);
    ghost var nodes, h, a, b := tree.storage.nodes, tree.depth, tree.a, tree.b;
    TreeParts(nodes, h, a, b);
    ghost var t := tree.Root();
    ghost var s;
    status, s := tree.storage.Defragment(t);
    SameStoredTree(nodes, s, tree.storage.nodes, h, a, b);
  }

  lemma TreeSize<V(!new)>(tree: Tree<V>)
    requires tree.Valid()
    ensures Dense(|tree.storage.nodes.Keys|, tree.a, tree.b, |tree.Map()|)
  {
    hide NodeStorage.Valid, Unfold, InOrder, Holds, Content, Uniform, Bounded;
    ContentSize(tree.Pairs());
    DepthPositive(tree);
    NodeCount(tree.storage.nodes, tree.Root(), tree.depth, tree.a, tree.b);
  }

  lemma SameStoredTree<V>(nodes: Store<Entry<V>>, s: Renumbering, after: Store<Entry<V>>, h: nat, a: nat, b: nat)
    requires TreeStored(nodes, h, a, b) && Renamed(nodes, s, after) && ROOT_ID in s && s[ROOT_ID] == ROOT_ID
    ensures TreeStored(after, h, a, b) && InOrder(Unfold(after, ROOT_ID, h)) == InOrder(Unfold(nodes, ROOT_ID, h))
  {
    hide Unfold, InOrder, Renamed, Holds, Uniform, Bounded, Sorted, RenamedShape;
    var t := Unfold(nodes, ROOT_ID, h);
    TreeParts(nodes, h, a, b);
    RenamedRoot(s, t);
    SameTree(nodes, s, after, t, h, a, b);
  }

  ghost function Answer<V>(m: map<Key, V>, key: Key): Lookup<V> {
    if key in m then Found(m[key]) else NotFound
  }

  /** A new file, a run with compactions, and then a lookup: the answer is that of a content that the run may leave;
      without deletions, or with even b, that of the plain map. The file has to have space for n blocks, where n
      suffices for the keys of all insertions, at a - 1 for each block. */
  method RunThenGetOnFile<V(!new)>(a: uint, b: uint, blockSize: int, header: seq<byte>, bp: Blueprint,
                                   encode: V -> Value, decode: Value -> V, ops: seq<Op<V>>, compactAt: set<nat>,
                                   key: Key, ghost n: nat)
      returns (r: Lookup<V>)
    requires a >= 2 && a * 2 - 1 <= b < 0xFFFF_FFFF && Sound(bp) && Coding(bp, encode, decode)
    requires n > 0 && LongestFile(b, blockSize, header, bp, n) <= Persistent.MAX_FILE
    requires Suffices(n, a, |AppliedAll(map[], Inserts(ops))|)
    requires b % 2 == 1 || !Fills(ops, b)
    ensures exists m :: LeavesAll(map[], ops, m) && r == Answer(m, key)
    ensures b % 2 == 0 || OnlyInserts(ops) ==> r == Answer(AppliedAll(map[], ops), key)
  {
    hide Tree.Valid, Tree.Map, AppliedAll, Fills, LeavesAll, LongestFile, NodeStorage.SpaceFor, Coding, Suffices;
    var tree := StartOnFile(a, b, blockSize, header, bp, encode, decode, n);
    var _ := RunOnFile(tree, ops, compactAt, n);
    ghost var visited;
    r, visited := tree.Get(key);
    assert r == Answer(tree.Map(), key);
  }

  // ---- the entry that Delete loses ----

  /** The first key of an inner root is in the tree, and it is found there. */
  lemma RootKey<V>(nodes: Store<Entry<V>>, h: nat, a: nat, b: nat) returns (key: Key)
    requires TreeStored(nodes, h, a, b) && h > 1
    ensures var t := Unfold(nodes, ROOT_ID, h); Stop(t, key).kids != [] && key in Content(InOrder(t))
  {
    hide Unfold, Holds, Sorted;
    var t := Unfold(nodes, ROOT_ID, h);
    key := t.values[0].key;
    var before := InOrder(t.kids[0]);
    assert InOrder(t) == before + [t.values[0]] + Weave(t.values[1..], t.kids[1..]);
    assert InOrder(t)[|before|] == t.values[0];
    ContentKeys(InOrder(t));
  }

  /** Over a file, Delete removes whatever key it is given if and only if the tree is a single leaf. */
  lemma DeleteExactly<V(!new)>(tree: Tree<V>)
    requires tree.Valid() && tree.storage.backing.File?
    ensures (forall key :: tree.InPlace(key) || key !in tree.Map()) <==> tree.depth == 1
  {
    hide NodeStorage.Valid, TreeStored, Unfold, InOrder, Stop, Content;
    DepthPositive(tree);
    if tree.depth == 1 {
      forall key ensures tree.InPlace(key) {
        LeafInPlace(tree, key);
      }
    } else {
      var key := RootKey(tree.storage.nodes, tree.depth, tree.a, tree.b);
      assert !tree.InPlace(key) && key in tree.Map();
    }
  }

  /** Three entries in nodes of one or two: the middle one is alone in the root. */
  lemma MiddleInRoot<E>(t: Shape<E>, h: nat)
    requires Frames.Proper(t, h, 2, 3) && |InOrder(t)| == 3
    ensures t.kids != [] && t.values == [InOrder(t)[1]]
  {
    EntryCount(t, h, 2, 3);
    assert h == 1 ==> InOrder(t) == t.values;
    assert Pow(3, 1) == 3 * Pow(3, 0);
    if h > 2 {
      assert Pow(2, h - 1) == 2 * (2 * Pow(2, h - 3));
      PowPositive(h - 3);
      assert false;
    }
    forall i | 0 <= i < |t.kids| ensures 2 <= |InOrder(t.kids[i])| + 1 {
      assert InOrder(t.kids[i]) == t.kids[i].values;
    }
    WeaveAtLeast(t.values, t.kids, 2);
    assert |t.kids| == 2;
    var l, m, r := t.kids[0], t.values[0], t.kids[1];
    WeavePair([], [], l, m, r, [], []);
    assert [] + [m] + [] == t.values && [] + [l, r] + [] == t.kids;
  }

  lemma {:induction false} PowPositive(n: nat)
    ensures Pow(2, n) >= 1
  {
    if n > 0 {
      PowPositive(n - 1);
    }
  }

  function ThreeInserts<V>(v: V): seq<Op<V>> {
    [InsertOp(1, v), InsertOp(2, v), InsertOp(3, v)]
  }

  lemma ThreeInserted<V>(v: V)
    ensures AppliedAll(map[], ThreeInserts(v)) == map[1 := v, 2 := v, 3 := v]
    ensures Suffices(3, 2, |AppliedAll(map[], ThreeInserts(v))|)
    ensures OnlyInserts(ThreeInserts(v)) && Inserts(ThreeInserts(v)) == ThreeInserts(v)
  {
    hide AppliedAll, Inserts;
    KeptInserts(ThreeInserts(v));
    var one, two, three := InsertOp(1, v), InsertOp(2, v), InsertOp(3, v);
    NoOps<V>(1);
    InsertsMore(map[], [], one);
    InsertsMore(map[], [one], two);
    InsertsMore(map[], [one, two], three);
    assert [] + [one] == [one] && [one] + [two] == [one, two] && [one, two] + [three] == ThreeInserts(v);
    Added(map[], 1, v);
    Added(map[1 as Key := v], 2, v);
    Added(map[1 as Key := v, 2 := v], 3, v);
  }

  /** In that tree the key 2 is in the root. */
  lemma TwoInRoot<V(!new)>(tree: Tree<V>, v: V)
    requires tree.Valid() && tree.storage.backing.File? && tree.a == 2 && tree.b == 3
    requires tree.Map() == map[1 := v, 2 := v, 3 := v]
    ensures !tree.InPlace(2)
  {
    hide NodeStorage.Valid, Unfold, InOrder, Holds, Content, Uniform, Bounded;
    var t := tree.Root();
    var s := InOrder(t);
    ContentSize(s);
    assert |map[1 as Key := v, 2 := v, 3 := v]| == 3;
    MiddleInRoot(t, tree.depth);
    ContentKeys(s);
    assert s[0].key in tree.Map() && s[1].key in tree.Map() && s[2].key in tree.Map();
    assert t.values[0].key == 2;
  }

  lemma OneBeforeTwo<V>(v: V)
    ensures var m := map[1 := v, 2 := v, 3 := v];
            forall p :: Predecessor(m, 2, p) ==> p == 1 && m - {p} == map[2 := v, 3 := v]
  {
    var m: map<Key, V> := map[1 := v, 2 := v, 3 := v];
    forall p | Predecessor(m, 2, p) ensures p == 1 && m - {p} == map[2 := v, 3 := v] {
      assert p in m;
    }
  }

  /** Insert 1, 2 and 3 into a new file and delete 2: the key 1 is gone, and 2 is found. */
  method LostPredecessor<V(!new)>(blockSize: int, header: seq<byte>, bp: Blueprint, encode: V -> Value,
                                  decode: Value -> V, v: V)
      returns (first: Lookup<V>, middle: Lookup<V>)
    requires Sound(bp) && Coding(bp, encode, decode)
    requires LongestFile(3, blockSize, header, bp, 3) <= Persistent.MAX_FILE
    ensures first == NotFound && middle == Found(v)
  {
    hide Tree.Valid, Tree.Map, AppliedAll, LeavesAll, LongestFile, NodeStorage.SpaceFor, Coding, Tree.InPlace,
         Inserts, OnlyInserts, ThreeInserts, Predecessor, Fills, Deleted, Tree.Pairs, Suffices;
    ThreeInserted(v);
    var tree := StartOnFile(2, 3, blockSize, header, bp, encode, decode, 3);
    var _ := RunOnFile(tree, ThreeInserts(v), {}, 3);
    TwoInRoot(tree, v);
    OneBeforeTwo(v);
    var _ := tree.Delete(2);
    assert tree.Map() == map[2 := v, 3 := v];
    ghost var visited;
    first, visited := tree.Get(1);
    middle, visited := tree.Get(2);
  }

  /** Such a file, with booleans as values. */
  method LostBool() returns (first: Lookup<bool>, middle: Lookup<bool>)
    ensures first == NotFound && middle == Found(true)
  {
    hide Coding;
    BoolsComeBack();
    assert LongestFile(3, 0, [], BoolBp, 3) <= Persistent.MAX_FILE by {
      TimesIsProduct(NodeSize(Layout(0, 0, 3, IntBp(8), BoolBp)), 3);
    }
    first, middle := LostPredecessor(0, [], BoolBp, (b: bool) => BoolV(b), (v: Value) => v.BoolV? && v.b, true);
  }
}
