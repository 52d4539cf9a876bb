/** Whole runs of the tree against the same operations on a plain map. */
module Runs {
  import opened Shapes
  import opened Entries
  import opened Search
  import opened Frames
  import opened Storages
  import opened Deletes
  import opened Trees
  import opened Links
  import opened Heights
  import opened Occupancy

  datatype Op<V> = InsertOp(key: Key, value: V) | DeleteOp(key: Key)

  ghost function Applied<V>(m: map<Key, V>, op: Op<V>): map<Key, V> {
    match op
    case InsertOp(key, value) => m[key := value]
    case DeleteOp(key) => m - {key}
  }

  ghost function AppliedAll<V>(m: map<Key, V>, ops: seq<Op<V>>): map<Key, V> {
    if ops == [] then m else Applied(AppliedAll(m, ops[..|ops| - 1]), ops[|ops| - 1])
  }

  /** What an operation may leave. A deletion may take the entry before the key instead of that of the key. */
  ghost predicate Leaves<V(!new)>(m: map<Key, V>, op: Op<V>, after: map<Key, V>) {
    after == Applied(m, op)
    || (op.DeleteOp? && op.key in m && exists p :: Predecessor(m, op.key, p) && after == m - {p})
  }

  lemma EmptyTree<V>(nodes: Store<Entry<V>>, a: nat, b: nat)
    requires nodes == map[ROOT_ID := Node(ROOT_ID, [], [], true)] && b > 0
    ensures TreeStored(nodes, 1, a, b) && InOrder(Unfold(nodes, ROOT_ID, 1)) == []
  {
    var t: Shape<Entry<V>> := Shape(ROOT_ID, [], []);
    assert nodes.Values == {View(t)} by {
      assert nodes[ROOT_ID] == View(t);
    }
    Conclude(nodes, t, 1, a, b);
  }

  // ---- how full a tree of one leaf is ----

  lemma LeafIsSmall<V>(nodes: Store<Entry<V>>, a: nat, b: nat)
    requires TreeStored(nodes, 1, a, b)
    ensures |Content(InOrder(Unfold(nodes, ROOT_ID, 1)))| < b
  {
    var t := Unfold(nodes, ROOT_ID, 1);
    assert InOrder(t) == t.values;
    ContentSize(t.values);
  }

  /** One entry more splits a leaf exactly when there are b then. */
  lemma LeafIsFull<V>(nodes: Store<Entry<V>>, a: nat, b: nat, key: Key, value: V)
    requires TreeStored(nodes, 1, a, b)
    ensures var t := Unfold(nodes, ROOT_ID, 1);
            var m := Content(InOrder(t));
            !HasKey(Stop(t, key).values, key) && |Stop(t, key).values| + 1 == b <==> |m[key := value]| >= b
  {
    var t := Unfold(nodes, ROOT_ID, 1);
    assert InOrder(t) == t.values && Stop(t, key) == t;
    ContentSize(t.values);
    ContentKeys(t.values);
    Added(Content(t.values), key, value);
  }

  // ---- runs ----

  /** A fresh tree over a fresh in-memory storage. */
  method StartInMemory<V(!new)>(a: uint, b: uint) returns (tree: Tree<V>)
    requires a >= 2 && a * 2 - 1 <= b
    ensures fresh(tree) && fresh(tree.storage) && fresh(tree.storage.repr)
    ensures tree.a == a && tree.b == b && tree.storage.SharesSlices() && tree.depth == 1
    ensures tree.Valid() && tree.Map() == map[]
  {
    hide TreeStored, Unfold, InOrder, NodeStorage.Valid;
    var storage := new NodeStorage<Entry<V>>.InMemory(b);
    var created := Tree<V>.NewTree(a, b, storage);
    tree := created;
    EmptyTree(storage.nodes, a, b);
  }

  /** One operation: that of the plain map, unless Delete writes what only a shared slice would show. */
  method Apply<V(!new)>(tree: Tree<V>, op: Op<V>, ghost n: nat) returns (status: Status)
    requires tree.Valid()
    requires op.InsertOp? ==> tree.storage.SpaceFor(n) && Suffices(n, tree.a, |Applied(tree.Map(), op)|)
    modifies tree, tree.storage, tree.storage.repr
    ensures status == Panic <==> tree.b % 2 == 0 && op.InsertOp? && old(tree.NeedsSplit(op.key))
    ensures status == Done || status == Panic
    ensures status == Done ==> tree.Valid() && (old(tree.storage.SpaceFor(n)) ==> tree.storage.SpaceFor(n))
    ensures status == Done ==> tree.depth <= old(tree.depth) + if op.InsertOp? then 1 else 0
    ensures status == Done && tree.b % 2 == 0 ==> tree.depth <= old(tree.depth)
    ensures status == Done ==> Leaves(old(tree.Map()), op, tree.Map())
    ensures status == Done ==>
      (tree.Map() == Applied(old(tree.Map()), op)
       <==> op.InsertOp? || old(tree.InPlace(op.key) || op.key !in tree.Map()))
  {
    hide Tree.Valid, Tree.Map, Tree.NeedsSplit, Tree.InPlace, NodeStorage.SpaceFor;
    CountApplied(tree, op);
    match op
    case InsertOp(key, value) => status := tree.Insert(key, value, n);
    case DeleteOp(key) => status := tree.Delete(key);
  }

  lemma CountApplied<V(!new)>(tree: Tree<V>, op: Op<V>)
    ensures op.InsertOp? ==> |Applied(tree.Map(), op)| == tree.CountWith(op.key)
  {
    if op.InsertOp? {
      Added(tree.Map(), op.key, op.value);
    }
  }

  /** A tree of depth 1 panics on the insertion that would make b entries. */
  lemma LeafPanics<V(!new)>(tree: Tree<V>, key: Key, value: V)
    requires tree.Valid() && tree.depth == 1
    ensures tree.NeedsSplit(key) <==> |tree.Map()[key := value]| >= tree.b
  {
    hide NodeStorage.Valid, TreeStored, Unfold, InOrder, Content, Stop;
    LeafIsFull(tree.storage.nodes, tree.a, tree.b, key, value);
  }

  lemma DepthPositive<V(!new)>(tree: Tree<V>)
    requires tree.Valid()
    ensures tree.depth >= 1
  {
    hide NodeStorage.Valid, InOrder, Holds, Sorted;
  }

  /** At some point of the run the plain map holds b entries. */
  ghost predicate Fills<V>(ops: seq<Op<V>>, b: nat) {
    exists i :: 0 <= i <= |ops| && |AppliedAll(map[], ops[..i])| >= b
  }

  lemma NextOp<V>(ops: seq<Op<V>>, i: nat, b: nat)
    requires i < |ops|
    ensures AppliedAll(map[], ops[..i + 1]) == Applied(AppliedAll(map[], ops[..i]), ops[i])
    ensures Fills(ops[..i + 1], b) <==> Fills(ops[..i], b) || |AppliedAll(map[], ops[..i + 1])| >= b
    ensures Fills(ops[..i + 1], b) ==> Fills(ops, b)
  {
    hide AppliedAll;
    assert ops[..i + 1][..i] == ops[..i];
    LastOp(ops[..i + 1]);
    assert ops[..i + 1][..i + 1] == ops[..i + 1];
    if Fills(ops[..i], b) {
      var k :| 0 <= k <= i && |AppliedAll(map[], ops[..i][..k])| >= b;
      assert ops[..i + 1][..k] == ops[..i][..k];
    }
    if Fills(ops[..i + 1], b) {
      var k :| 0 <= k <= i + 1 && |AppliedAll(map[], ops[..i + 1][..k])| >= b;
      assert ops[..k] == ops[..i + 1][..k];
      assert k <= i ==> ops[..i][..k] == ops[..k];
    }
  }

  lemma LastOp<V>(ops: seq<Op<V>>)
    requires ops != []
    ensures AppliedAll(map[], ops) == Applied(AppliedAll(map[], ops[..|ops| - 1]), ops[|ops| - 1])
  {
  }

  lemma NoOps<V>(b: nat)
    requires b > 0
    ensures AppliedAll<V>(map[], []) == map[] && !Fills<V>([], b)
  {
  }

  /** A run of operations on a new tree in memory. It panics if and only if b is even and the plain map would at some
      point hold b entries; otherwise it ends with the content of the plain map. */
  method Run<V(!new)>(a: uint, b: uint, ops: seq<Op<V>>) returns (tree: Tree<V>, status: Status)
    requires a >= 2 && a * 2 - 1 <= b
    ensures fresh(tree) && tree.a == a && tree.b == b
    ensures status == Done || status == Panic
    ensures status == Panic <==> b % 2 == 0 && Fills(ops, b)
    ensures status == Done ==> tree.Valid() && tree.Map() == AppliedAll(map[], ops)
  {
    hide Tree.Valid, Tree.Map, Tree.NeedsSplit, AppliedAll, Applied, Fills;
    tree := StartInMemory(a, b);
    status := Done;
    NoOps<V>(b);
    assert ops[..0] == [];
    var i := 0;
    while i < |ops|
      invariant 0 <= i <= |ops| && fresh(tree) && tree.a == a && tree.b == b
      invariant fresh(tree.storage) && fresh(tree.storage.repr) && tree.storage.SharesSlices()
      invariant tree.Valid() && tree.Map() == AppliedAll(map[], ops[..i])
      invariant status == Done
      invariant b % 2 == 0 ==> tree.depth == 1 && !Fills(ops[..i], b)
    {
      NextOp(ops, i, b);
      if b % 2 == 0 && ops[i].InsertOp? {
        LeafPanics(tree, ops[i].key, ops[i].value);
        InsertApplied(tree.Map(), ops[i]);
      }
      ghost var n := |Applied(tree.Map(), ops[i])|;
      AtLeastOnce(n, tree.a - 1);
      status := Apply(tree, ops[i], n);
      if status != Done {
        return;
      }
      DepthPositive(tree);
      if b % 2 == 0 {
        Smaller(tree);
      }
      i := i + 1;
    }
    assert ops[..|ops|] == ops;
  }

  lemma AtLeastOnce(n: nat, c: nat)
    requires c > 0
    ensures n <= n * c
  {
  }

  lemma InsertApplied<V>(m: map<Key, V>, op: Op<V>)
    requires op.InsertOp?
    ensures Applied(m, op) == m[op.key := op.value]
  {
  }

  lemma Smaller<V(!new)>(tree: Tree<V>)
    requires tree.Valid() && tree.depth == 1
    ensures |tree.Map()| < tree.b
  {
    hide NodeStorage.Valid, TreeStored, Unfold, InOrder, Content, Stop;
    LeafIsSmall(tree.storage.nodes, tree.a, tree.b);
  }

  /** After a run that does not panic, Get answers as the plain map does. */
  method RunThenGet<V(!new)>(a: uint, b: uint, ops: seq<Op<V>>, key: Key) returns (r: Lookup<V>)
    requires a >= 2 && a * 2 - 1 <= b && (b % 2 == 1 || !Fills(ops, b))
    ensures var m := AppliedAll(map[], ops); r == if key in m then Found(m[key]) else NotFound
  {
    var tree, _ := Run(a, b, ops);
    ghost var visited;
    r, visited := tree.Get(key);
  }

  // ---- the panic is real ----

  /** Insertions of the keys below n. */
  function FirstKeys<V>(n: nat, v: V): (ops: seq<Op<V>>)
    requires n < 0x8000_0000_0000_0000
    ensures |ops| == n
  {
    if n == 0 then [] else FirstKeys(n - 1, v) + [InsertOp((n - 1) as Key, v)]
  }

  lemma {:induction false} FirstKeysApplied<V>(n: nat, v: V)
    requires n < 0x8000_0000_0000_0000
    ensures var m := AppliedAll(map[], FirstKeys(n, v));
            |m| == n && forall k :: k in m ==> k < n as Key
  {
    if n > 0 {
      var ops := FirstKeys(n, v);
      assert ops[..n - 1] == FirstKeys(n - 1, v);
      FirstKeysApplied(n - 1, v);
      Added(AppliedAll(map[], FirstKeys(n - 1, v)), (n - 1) as Key, v);
      LastOp(ops);
    }
  }

  /** For every even b a run of b insertions panics. */
  method EvenRunPanics<V(!new)>(a: uint, b: uint, v: V) returns (status: Status)
    requires a >= 2 && a * 2 - 1 <= b < 0x8000_0000_0000_0000 && b % 2 == 0
    ensures status == Panic
  {
    hide Tree.Valid, AppliedAll;
    var ops := FirstKeys(b, v);
    FirstKeysApplied(b, v);
    assert ops[..b] == ops;
    var _, outcome := Run(a, b, ops);
    status := outcome;
  }

  // ---- what NewTree accepts ----

  /** Bounds that NewTree accepts as their product wraps: a node would need far more values than it may have. */
  method AcceptedByWrapping<V(!new)>() returns (tree: Tree?<V>)
    ensures tree != null && tree.a * 2 - 1 > tree.b
  {
    var storage := new NodeStorage<Entry<V>>.InMemory(1);
    tree := Tree<V>.NewTree(0x8000_0000_0000_0001, 1, storage);
  }

  // ---- the accounts of a stored tree ----

  /** Nothing leaks and nothing dangles: the stored ids are those reached from the root, each but the root
      from one parent, and the depth is logarithmic in the number of entries. */
  lemma Accounted<V>(nodes: Store<Entry<V>>, h: nat, a: nat, b: nat)
    requires TreeStored(nodes, h, a, b)
    ensures forall id: nat :: id in nodes <==> Reachable(nodes, ROOT_ID, id)
    ensures Closed(nodes, ROOT_ID) && SingleParent(nodes)
    ensures var n := |InOrder(Unfold(nodes, ROOT_ID, h))|;
            n < Pow(b, h) && (h > 1 ==> 2 * Pow(a, h - 1) <= n + 1)
  {
    hide TreeStored, InOrder, Pow, Uniform, Bounded;
    TreeParts(nodes, h, a, b);
    var t := Unfold(nodes, ROOT_ID, h);
    forall id: nat ensures id in nodes <==> Reachable(nodes, ROOT_ID, id) {
      StoredIsReachable(nodes, t, id);
    }
    HoldsClosed(nodes, t);
    HoldsSingleParent(nodes, t);
    EntryCount(t, h, a, b);
  }

  lemma TreeParts<V>(nodes: Store<Entry<V>>, h: nat, a: nat, b: nat)
    requires TreeStored(nodes, h, a, b)
    ensures var t := Unfold(nodes, ROOT_ID, h); Holds(nodes, t) && t.id == ROOT_ID && Proper(t, h, a, b)
  {
  }
}
