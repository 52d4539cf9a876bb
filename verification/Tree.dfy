/** The (a,b)-tree: lookup, insertion and deletion over the node storage. */
module Trees {
  import opened Shapes
  import opened Frames
  import opened Entries
  import opened Search
  import opened Slices
  import opened Stacks
  import opened InMemory
  import opened Storages
  import opened Splits
  import opened Occupancy
  import opened Balances
  import opened Deletes

  /** Outcome of a call: Panic stands for a run-time panic, after which nothing is promised. */
  datatype Status = Done | StorageError | Panic

  datatype Lookup<V> = Found(value: V) | NotFound | Failed

  lemma WrappedOnce(n: int)
    requires -1 <= n < 2 * UINT_CAP
    ensures n >= 0 ==> n % UINT_CAP == if n < UINT_CAP then n else n - UINT_CAP
  {
  }

  class Tree<V(!new)> {
    const a: nat
    const b: nat
    var depth: nat
    const storage: NodeStorage<Entry<V>>

    ghost predicate Valid()
      reads this, storage, storage.repr
    {
      && a >= 2 && a * 2 - 1 <= b <= storage.b
      && storage.Valid() && storage.outstanding == {} && Apart()
      && depth == storage.depth
      && TreeStored(storage.nodes, depth, a, b)
    }

    /** What a storage keeps its nodes in is neither the storage nor the tree. */
    ghost predicate Apart() {
      storage !in storage.repr && this !in storage.repr
    }

    /** The tree that the stored nodes spell out. */
    ghost function Root(): Shape<Entry<V>>
      reads this, storage
    {
      Unfold(storage.nodes, ROOT_ID, depth)
    }

    ghost function Pairs(): seq<Entry<V>>
      reads this, storage
    {
      InOrder(Root())
    }

    ghost function Map(): map<Key, V>
      reads this, storage
    {
      Content(Pairs())
    }

    /** What it takes to be valid, and how the tree reads. */
    lemma Whole(s: seq<Entry<V>>)
      requires a >= 2 && a * 2 - 1 <= b <= storage.b && storage.Valid() && storage.outstanding == {} && Apart()
      requires depth == storage.depth && TreeStored(storage.nodes, depth, a, b)
      requires InOrder(Unfold(storage.nodes, ROOT_ID, depth)) == s
      ensures Valid() && Pairs() == s
    {
    }

    constructor (a: nat, b: nat, storage: NodeStorage<Entry<V>>)
      requires storage.Valid()
      ensures this.a == a && this.b == b && this.storage == storage && depth == storage.depth
    {
      this.a, this.b := a, b;
      this.storage := storage;
      var d := storage.GetDepth();
      depth := d;
    }

    /** The product is computed in 64 bits: for a beyond half of their range it wraps, and a may be accepted although
        2a - 1 exceeds b. */
    static method NewTree(a: uint, b: uint, storage: NodeStorage<Entry<V>>) returns (tree: Tree?<V>)
      requires storage.Valid()
      ensures tree == null <==> a < 2 || (if 2 * a <= UINT_CAP then 2 * a - 1 > b else 2 * a - 1 - UINT_CAP > b)
      ensures tree != null ==>
        fresh(tree) && tree.a == a && tree.b == b && tree.storage == storage && tree.depth == storage.depth
    {
      hide NodeStorage.Valid;
      WrappedOnce(a * 2 - 1);
      if a < 2 || (a * 2 - 1) % UINT_CAP > b {
        return null;
      }
      tree := new Tree(a, b, storage);
    }

    method Get(key: Key) returns (r: Lookup<V>, ghost visited: nat)
      requires Valid()
      ensures r == if key in Map() then Found(Map()[key]) else NotFound
      ensures visited <= depth
    {
      hide At, TreeStored, Unfold, Sorted, Content, InOrder, Below, Above, Holds, NodeStorage.Valid;
      ghost var t0 := Root();
      ghost var fs: Path<Entry<V>> := [];
      ghost var cur, h := t0, depth;
      AtRoot(storage.nodes, h, a, b, key);
      AtNode(storage.nodes, t0, fs, cur, h, a, b, key);
      visited := 1;
      var currentNode, stored := storage.Get(ROOT_ID);
      while true
        invariant At(t0, fs, cur, h, a, b, key)
        invariant stored && currentNode == View(cur) && storage.Fits(currentNode)
        invariant visited + h == depth + 1
        decreases h
      {
        AtNode(storage.nodes, t0, fs, cur, h, a, b, key);
        var found, position := Find(currentNode.values, key);
        if found {
          FoundHere(t0, fs, cur, position, h, a, b, key);
          return Found(currentNode.values[position].value), visited;
        }
        NotFoundHere(currentNode.values, position, key);
        if currentNode.leaf {
          Missing(t0, fs, cur, h, a, b, key);
          return NotFound, visited;
        }
        AtChild(t0, fs, cur, position, h, a, b, key);
        fs, cur, h := fs + [Step(cur, position)], cur.kids[position], h - 1;
        AtNode(storage.nodes, t0, fs, cur, h, a, b, key);
        visited := visited + 1;
        currentNode, stored := storage.Get(currentNode.children[position]);
        if !stored {
          return Failed, visited;
        }
      }
    }

    /** Whether storing key makes a leaf overflow. */
    ghost predicate NeedsSplit(key: Key)
      reads this, storage
    {
      var leaf := Stop(Root(), key);
      !HasKey(leaf.values, key) && |leaf.values| + 1 == b
    }

    /** The first loop of Insert: to the node that holds the key, or to the leaf where it goes. */
    method FindPlace(key: Key)
      returns (status: Status, path: Stack<nat>, currentNode: Node<Entry<V>>, found: bool, position: nat,
               ghost fs: Path<Entry<V>>, ghost cur: Shape<Entry<V>>, ghost h: nat)
      requires Valid()
      ensures status == Done && fresh(path) && path.values == PathIds(fs)
      ensures At(Root(), fs, cur, h, a, b, key) && depth == h + |fs|
      ensures currentNode == View(cur) && storage.Fits(currentNode)
      ensures found ==> position < |cur.values| && cur.values[position].key == key
      ensures !found ==> currentNode.leaf && !HasKey(cur.values, key)
    {
      hide At, TreeStored, Unfold, Sorted, InOrder, Below, Above, Holds, Stop, Ids, NodeStorage.Valid;
      ghost var t0, nodes0 := Root(), storage.nodes;
      fs, cur, h := [], t0, depth;
      AtRoot(nodes0, h, a, b, key);
      AtNode(nodes0, t0, fs, cur, h, a, b, key);
      path := new Stack<nat>();
      var stored;
      currentNode, stored := storage.Get(ROOT_ID);
      while true
        invariant Valid() && storage.nodes == nodes0 && fresh(path)
        invariant path.values == PathIds(fs)
        invariant At(t0, fs, cur, h, a, b, key) && depth == h + |fs|
        invariant stored && currentNode == View(cur) && storage.Fits(currentNode)
        decreases h
      {
        AtNode(nodes0, t0, fs, cur, h, a, b, key);
        found, position := Find(currentNode.values, key);
        status := Done;
        if found {
          return;
        }
        NotFoundHere(currentNode.values, position, key);
        if currentNode.leaf {
          return;
        }
        AtChild(t0, fs, cur, position, h, a, b, key);
        path.Push(currentNode.id);
        PathIdsStep(fs, cur, position);
        fs, cur, h := fs + [Step(cur, position)], cur.kids[position], h - 1;
        AtNode(nodes0, t0, fs, cur, h, a, b, key);
        currentNode, stored := storage.Get(currentNode.children[position]);
        if !stored {
          status := StorageError;
          return;
        }
      }
    }

    /** How many entries there are once key is stored. */
    ghost function CountWith(key: Key): nat
      reads this, storage
    {
      if key in Map() then |Map()| else |Map()| + 1
    }

    lemma PutSize(key: Key, value: V)
      requires Valid()
      ensures Content(Put(Pairs(), Entry(key, value))) == Map()[key := value]
      ensures |Put(Pairs(), Entry(key, value))| == CountWith(key)
    {
      hide TreeStored, InOrder, NodeStorage.Valid, Unfold;
      Added(Map(), key, value);
      AtRoot(storage.nodes, depth, a, b, key);
      PutSorted(Pairs(), Entry(key, value));
      ContentSize(Put(Pairs(), Entry(key, value)));
    }

    /** The file stays within n blocks, when n nodes of a - 1 values hold all entries. */
    method Insert(key: Key, value: V, ghost n: nat) returns (status: Status)
      requires Valid() && storage.SpaceFor(n) && Suffices(n, a, CountWith(key))
      modifies this, storage, storage.repr
      ensures status == Panic <==> b % 2 == 0 && old(NeedsSplit(key))
      ensures status == Done || status == Panic
      ensures status == Done ==> Valid()
      ensures status == Done ==> Pairs() == Put(old(Pairs()), Entry(key, value))
      ensures status == Done ==> Map() == old(Map())[key := value]
      ensures status == Done ==> old(depth) <= depth <= old(depth) + 1 && storage.SpaceFor(n)
      ensures status == Done && !old(NeedsSplit(key)) ==> depth == old(depth)
    {
      hide At, TreeStored, Unfold, Sorted, InOrder, Below, Above, Holds, Splitting, Stop, Put, Ids, Content,
           NodeStorage.Valid, NodeStorage.SpaceFor, NodeStorage.Writable, NodeStorage.Fits,
           Suffices, CountWith;
      AtRoot(storage.nodes, depth, a, b, key);
      PutSize(key, value);
      ghost var t0, nodes0 := Root(), storage.nodes;
      var path, currentNode, found, position;
      ghost var fs, cur, h;
      status, path, currentNode, found, position, fs, cur, h := FindPlace(key);
      if status != Done {
        return;
      }
      if found {
        Replaced(nodes0, t0, fs, cur, position, Entry(key, value), h, a, b);
        storage.FitsAlike(currentNode, currentNode.values[position := Entry(key, value)]);
        currentNode := currentNode.(values := currentNode.values[position := Entry(key, value)]);
        AtNode(nodes0, t0, fs, cur, h, a, b, key);
        ghost var c := cur.(values := cur.values[position := Entry(key, value)]);
        assert currentNode == View(c);
        storage.Persist(currentNode);
        assert storage.nodes == nodes0[cur.id := View(c)] && depth == h + |fs|;
        Whole(Put(InOrder(t0), Entry(key, value)));
        return Done;
      }
      storage.FitsAlike(currentNode, []);
      AtNode(nodes0, t0, fs, cur, h, a, b, key);
      Grown(nodes0, t0, fs, cur, Entry(key, value), h, a, b);
      var values := Add(currentNode.values, Entry(key, value));
      currentNode := currentNode.(values := values);
      SplittingShape(nodes0, fs, cur.(values := values), h, a, b, Put(InOrder(t0), Entry(key, value)));
      status :=
        SplitUpwards(path, currentNode, fs, cur.(values := values), h, Put(InOrder(t0), Entry(key, value)), n);
    }

    /** The second loop of Insert. */
    method SplitUpwards(path: Stack<nat>, node: Node<Entry<V>>, ghost fs0: Path<Entry<V>>, ghost cur0: Shape<Entry<V>>,
                        ghost h0: nat, ghost s: seq<Entry<V>>, ghost n: nat)
      returns (status: Status)
      requires storage.Valid() && storage.outstanding == {} && b <= storage.b && depth == storage.depth == h0 + |fs0|
      requires Splitting(storage.nodes, fs0, cur0, h0, a, b, s)
      requires Plug(fs0, cur0).id == ROOT_ID
      requires node == View(cur0) && path.values == PathIds(fs0) && path !in storage.repr && Apart()
      requires storage.SpaceFor(n) && Suffices(n, a, |s|) && storage.Writable(node.children)
      modifies this, storage, storage.repr, path
      ensures status == Panic <==> b % 2 == 0 && |cur0.values| == b
      ensures status == Done || status == Panic
      ensures status == Done ==> Valid() && Pairs() == s
      ensures status == Done ==> old(depth) <= depth <= old(depth) + 1 && storage.SpaceFor(n)
      ensures status == Done && |cur0.values| < b ==> depth == old(depth)
    {
      hide Splitting, Written, WrittenIds, TreeStored, Unfold, Plug, NodeStorage.Valid, NodeStorage.SpaceFor, Suffices;
      ghost var fs, cur, h: nat := fs0, cur0, h0;
      var currentNode := node;
      while true
        invariant storage.Valid() && storage.outstanding == {} && depth == storage.depth == h + |fs|
        invariant Splitting(storage.nodes, fs, cur, h, a, b, s)
        invariant Plug(fs, cur).id == ROOT_ID
        invariant currentNode == View(cur) && path.values == PathIds(fs)
        invariant storage.SpaceFor(n) && storage.Writable(currentNode.children) && depth == old(depth)
        invariant fs != fs0 || cur != cur0 ==> b % 2 == 1 && |cur0.values| == b
        decreases |fs|
      {
        SplittingShape(storage.nodes, fs, cur, h, a, b, s);
        if |currentNode.values| < b {
          Settled(storage.nodes, fs, cur, h, a, b, s);
          storage.Persist(currentNode);
          return Done;
        }
        if path.Empty() {
          assert fs == [];
          PlugNone(cur);
          status := SplitRoot(currentNode, cur, h, s, n);
          return;
        }
        ghost var gs, f := fs[..|fs| - 1], fs[|fs| - 1];
        assert fs == gs + [f];
        PlugLast(gs, f, cur);
        ghost var up;
        status, currentNode, up := SplitChild(path, currentNode, gs, f, cur, h, s, n);
        if status != Done {
          return;
        }
        PlugIdOnly(gs, Fill(f, cur), up);
        fs, cur, h := gs, up, h + 1;
      }
    }

    method SplitChild(path: Stack<nat>, node: Node<Entry<V>>, ghost gs: Path<Entry<V>>, ghost f: Frame<Entry<V>>,
                      ghost cur: Shape<Entry<V>>, ghost h: nat, ghost s: seq<Entry<V>>, ghost n: nat)
      returns (status: Status, currentNode: Node<Entry<V>>, ghost up: Shape<Entry<V>>)
      requires storage.Valid() && storage.outstanding == {} && b <= storage.b
      requires Splitting(storage.nodes, gs + [f], cur, h, a, b, s)
      requires node == View(cur) && |cur.values| == b
      requires path.values == PathIds(gs + [f]) && path !in storage.repr && Apart()
      requires storage.SpaceFor(n) && Suffices(n, a, |s|) && storage.Writable(node.children)
      modifies storage, storage.repr, path
      ensures status == if b % 2 == 1 then Done else Panic
      ensures storage.depth == old(storage.depth)
      ensures status == Done ==>
        && storage.Valid() && storage.outstanding == {}
        && storage.SpaceFor(n) && storage.Writable(currentNode.children)
        && Splitting(storage.nodes, gs, up, h + 1, a, b, s)
        && currentNode == View(up) && up.id == f.id
        && path.values == PathIds(gs)
    {
      hide Splitting, Pending, Written, WrittenIds, Sorted, Put, LastIndex, PlacedBefore, TreeStored, PathIds, Suffices,
           NodeStorage.Valid, NodeStorage.Fits, InOrder, Ids;
      currentNode := node;
      up := cur;
      ghost var nodes := storage.nodes;
      SplittingShape(nodes, gs + [f], cur, h, a, b, s);
      assert node.id == cur.id && f.id in nodes && nodes[f.id] == FrameNode(f, cur.id) && f.id != cur.id by {
        FrameStored(nodes, gs, f, cur);
      }
      LastOf(gs, f);
      var parentId := path.Pop();
      var parent, stored := storage.Get(parentId);
      if !stored {
        return StorageError, node, up;
      }
      storage.FitsAlike(parent, []);
      NodesFit(nodes, gs + [f], cur, h, a, b, s, n);
      var newNodeId := storage.NewId(n);
      var ok, newNode, middle, oldNode := SplitFullNode(newNodeId, currentNode);
      if !ok {
        return Panic, node, up;
      }
      ghost var after := nodes[oldNode.id := oldNode][newNodeId := newNode];
      up := SplitStep(nodes, gs, f, cur, newNodeId, h, a, b, s, after);
      parent := parent.(children := PlacedBefore(parent.children, newNode.id, oldNode.id));
      var values := Add(parent.values, middle);
      parent := parent.(values := values);
      WrittenTwo(nodes, oldNode, newNode);
      FitHalves(node, b / 2, newNodeId, node.id);
      storage.WritablePlaced(FrameNode(f, cur.id).children, newNodeId, cur.id);
      storage.PersistMultiple([oldNode, newNode]);
      return Done, parent, up;
    }

    method SplitRoot(currentNode: Node<Entry<V>>, ghost cur: Shape<Entry<V>>, ghost h: nat, ghost s: seq<Entry<V>>,
                     ghost n: nat)
      returns (status: Status)
      requires storage.Valid() && storage.outstanding == {} && b <= storage.b && depth == storage.depth == h
      requires Splitting(storage.nodes, [], cur, h, a, b, s)
      requires currentNode == View(cur) && cur.id == ROOT_ID && |cur.values| == b && Apart()
      requires storage.SpaceFor(n) && Suffices(n, a, |s|) && storage.Writable(currentNode.children)
      modifies this, storage, storage.repr
      ensures status == if b % 2 == 1 then Done else Panic
      ensures status == Done ==> Valid() && Pairs() == s && depth == old(depth) + 1 && storage.SpaceFor(n)
    {
      hide Splitting, Pending, Written, WrittenIds, TreeStored, Unfold, Plug, NodeStorage.Valid, NodeStorage.Fits,
           NodeStorage.Writable, NodeStorage.SpaceFor, View, InOrder, Sorted, Valid, Pairs, Suffices;
      ghost var nodes := storage.nodes;
      SplittingShape(nodes, [], cur, h, a, b, s);
      NodesFit(nodes, [], cur, h, a, b, s, n);
      var newNodeId := storage.NewId(n);
      var ok, newNode, middle, oldRoot := SplitFullNode(newNodeId, currentNode);
      if !ok {
        return Panic;
      }
      var oldRootNewId := storage.NewId(n);
      var newRoot := NewRootOver(oldRoot.id, middle, newNode.id, oldRootNewId);
      oldRoot := oldRoot.(id := oldRootNewId);
      ghost var after := nodes[ROOT_ID := newRoot][oldRootNewId := oldRoot][newNodeId := newNode];
      RaisedTree(nodes, cur, newNodeId, oldRootNewId, h, a, b, s, after);
      WrittenThree(nodes, newRoot, oldRoot, newNode);
      FitHalves(currentNode, b / 2, newNodeId, oldRootNewId);
      FitRoot(middle, newNodeId, oldRootNewId);
      storage.PersistMultiple([newRoot, oldRoot, newNode]);
      storage.SpaceIsWritable(n, depth + 1);
      UpdateDepth(depth + 1);
      Whole(s);
      return Done;
    }

    /** Both halves of a full node fit. */
    lemma FitHalves(n: Node<Entry<V>>, m: nat, id: nat, upperId: nat)
      requires m < |n.values| == b <= storage.b && (if n.leaf then n.children == [] else |n.children| == b + 1)
      requires storage.Writable(n.children)
      ensures storage.Fits(LowerHalf(n, m, id)) && storage.Fits(UpperHalf(n, m))
              && storage.Fits(UpperHalf(n, m).(id := upperId))
    {
      hide NodeStorage.Writable;
      if !n.leaf {
        storage.WritableParts(n.children, m + 1, m + 1);
      }
    }

    lemma FitRoot(middle: Entry<V>, leftId: nat, rightId: nat)
      requires b > 1 && b <= storage.b && storage.Writable([leftId]) && storage.Writable([rightId])
      ensures storage.Fits(Node(ROOT_ID, [middle], [leftId, rightId], false))
    {
      storage.WritableJoined([leftId], [rightId]);
      assert [leftId] + [rightId] == [leftId, rightId];
    }

    static method NewRootOver(id: nat, middle: Entry<V>, leftId: nat, rightId: nat) returns (newRoot: Node<Entry<V>>)
      ensures newRoot == Node(id, [middle], [leftId, rightId], false)
    {
      newRoot := CreateNewNode(id, false);
      var values := Add(newRoot.values, middle);
      newRoot := newRoot.(values := values);
      newRoot := newRoot.(children := newRoot.children + [leftId, rightId]);
    }

    method UpdateDepth(depth: nat)
      requires storage.Valid() && Apart() && storage.Writable([depth])
      modifies this`depth, storage`depth, storage.repr
      ensures storage.Valid()
      ensures this.depth == depth == storage.depth
      ensures forall n :: old(storage.SpaceFor(n)) ==> storage.SpaceFor(n)
    {
      hide NodeStorage.Valid, NodeStorage.SpaceFor, Unfold;
      this.depth := depth;
      assert [depth][0] == depth;
      storage.SetDepth(depth);
    }

    /** ok is false where Go panics with an index out of range. */
    method SplitFullNode(newNodeId: nat, node: Node<Entry<V>>)
      returns (ok: bool, newNode: Node<Entry<V>>, middle: Entry<V>, currentNode: Node<Entry<V>>)
      requires |node.values| == b > 0 && (if node.leaf then node.children == [] else |node.children| == b + 1)
      ensures ok <==> b % 2 == 1
      ensures ok ==> newNode == LowerHalf(node, b / 2, newNodeId)
      ensures ok ==> middle == node.values[b / 2]
      ensures ok ==> currentNode == UpperHalf(node, b / 2)
    {
      hide Shifting;
      currentNode := node;
      newNode := CreateNewNode(newNodeId, node.leaf);
      var middleIndex := b / 2;
      middle := currentNode.values[middleIndex];
      var values, children := node.values, node.children;
      ShiftNone(node.values, middleIndex + 1);
      ShiftNone(node.children, middleIndex + 1);
      var i := 0;
      while i < middleIndex
        invariant 0 <= i <= middleIndex && (0 < i ==> i + middleIndex < b)
        invariant |values| == b && |children| == |node.children|
        invariant newNode.id == newNodeId && newNode.leaf == node.leaf
        invariant newNode.values == node.values[..i]
        invariant newNode.children == if node.leaf then [] else node.children[..i]
        invariant Shifting(node.values, values, i, middleIndex + 1)
        invariant !node.leaf ==> Shifting(node.children, children, i, middleIndex + 1)
      {
        newNode := newNode.(values := newNode.values + [values[i]]);
        if 1 + i + middleIndex >= |values| {
          return false, newNode, middle, currentNode;
        }
        ShiftOne(node.values, values, i, middleIndex + 1);
        values := values[i := values[1 + i + middleIndex]];
        if !currentNode.leaf {
          ShiftOne(node.children, children, i, middleIndex + 1);
          newNode := newNode.(children := newNode.children + [children[i]]);
          children := children[i := children[1 + i + middleIndex]];
        }
        i := i + 1;
      }
      if !currentNode.leaf {
        ShiftOne(node.children, children, i, middleIndex + 1);
        newNode := newNode.(children := newNode.children + [children[middleIndex]]);
        children := children[middleIndex := children[b]];
        ShiftedDown(node.children, children, middleIndex + 1, middleIndex + 1);
        children := children[..middleIndex + 1];
      }
      ShiftedDown(node.values, values, middleIndex, middleIndex + 1);
      values := values[..middleIndex];
      currentNode := currentNode.(values := values, children := children);
      ok := true;
    }

    static method CreateNewNode(id: nat, leaf: bool) returns (node: Node<Entry<V>>)
      ensures node == Node(id, [], [], leaf)
    {
      node := Node(id, [], [], leaf);
    }

    /** Whether Delete writes nothing that only a shared value slice makes visible. */
    ghost predicate InPlace(key: Key)
      reads this, storage
    {
      storage.SharesSlices() || Stop(Root(), key).kids == []
    }

    method Delete(key: Key) returns (status: Status)
      requires Valid()
      modifies this, storage, storage.repr
      ensures status == Done
      ensures Valid() && depth <= old(depth)
      ensures Pairs() == old(Deleted(Pairs(), key, InPlace(key)))
      ensures Map() == old(Map()) - {key} <==> old(InPlace(key) || key !in Map())
      ensures old(!InPlace(key) && key in Map()) ==>
        exists p :: Predecessor(old(Map()), key, p) && Map() == old(Map()) - {p}
      ensures forall n :: old(storage.SpaceFor(n)) ==> storage.SpaceFor(n)
    {
      hide At, TreeStored, Unfold, Sorted, InOrder, Below, Above, Holds, Balancing, Stop, Drop, DropBefore,
           NodeStorage.Valid, NodeStorage.SpaceFor,
           NodeStorage.SharesSlices, Steps, Placed, Removed, Content, Keyed;
      AtRoot(storage.nodes, depth, a, b, key);
      DeletedIsRemoval(Pairs(), key, InPlace(key));
      ghost var t0, nodes0 := Root(), storage.nodes;
      ghost var fs: Path<Entry<V>> := [];
      ghost var cur, h: nat := t0, depth;
      AtRoot(nodes0, h, a, b, key);
      AtNode(nodes0, t0, fs, cur, h, a, b, key);
      FirstStep(t0);
      var path := new Stack<DeleteStep>();
      var currentNode, stored := storage.Get(ROOT_ID);
      var positionInParent := 0;
      while true
        invariant Valid() && storage.nodes == nodes0 && depth == old(depth)
        invariant forall n :: old(storage.SpaceFor(n)) ==> storage.SpaceFor(n)
        invariant path.values + [DeleteStep(cur.id, positionInParent)] == Steps(fs, cur.id) && depth == h + |fs|
        invariant At(t0, fs, cur, h, a, b, key)
        invariant stored && currentNode == View(cur) && storage.Fits(currentNode)
        decreases h
      {
        AtNode(nodes0, t0, fs, cur, h, a, b, key);
        path.Push(DeleteStep(currentNode.id, positionInParent));
        var found, position := Find(currentNode.values, key);
        if found {
          if currentNode.leaf {
            LeafPopped(nodes0, t0, fs, cur, position, h, a, b, key);
            currentNode := currentNode.(values := Removed(currentNode.values, position));
            storage.Persist(currentNode);
            cur := cur.(values := Removed(cur.values, position));
            break;
          }
          status := DeleteInner(path, currentNode, position, fs, cur, h, t0, key);
          ghost var p := PredecessorDropped(InOrder(t0), key);
          return;
        }
        NotFoundHere(currentNode.values, position, key);
        if currentNode.leaf {
          Missing(t0, fs, cur, h, a, b, key);
          return Done;
        }
        AtChild(t0, fs, cur, position, h, a, b, key);
        positionInParent := position;
        StepsDown(fs, cur, position);
        fs, cur, h := fs + [Step(cur, position)], cur.kids[position], h - 1;
        AtNode(nodes0, t0, fs, cur, h, a, b, key);
        currentNode, stored := storage.Get(currentNode.children[position]);
        if !stored {
          return StorageError;
        }
      }
      status := BalanceTreeAfterDelete(path, fs, cur, h, Drop(InOrder(t0), key));
    }

    /** The branch of Delete for a key held by an inner node. */
    method DeleteInner(path: Stack<DeleteStep>, currentNode: Node<Entry<V>>, position: nat,
                       ghost fs: Path<Entry<V>>, ghost cur: Shape<Entry<V>>, ghost h: nat,
                       ghost t0: Shape<Entry<V>>, key: Key)
      returns (status: Status)
      requires Valid() && t0 == Root()
      requires At(t0, fs, cur, h, a, b, key) && depth == h + |fs|
      requires currentNode == View(cur) && cur.kids != []
      requires position < |cur.values| && cur.values[position].key == key
      requires path.values == Steps(fs, cur.id) && path !in storage.repr && Apart()
      modifies this, storage, storage.repr, path
      ensures status == Done
      ensures Valid() && depth <= old(depth)
      ensures Pairs() == old(Deleted(Pairs(), key, InPlace(key))) && Preceded(old(Pairs()), key)
      ensures forall n :: old(storage.SpaceFor(n)) ==> storage.SpaceFor(n)
    {
      hide At, TreeStored, Unfold, Sorted, InOrder, Below, Above, Holds, Balancing, Stop, Drop, DropBefore,
           NodeStorage.Valid, NodeStorage.SpaceFor,
           Steps, Placed, Rightmost;
      ghost var nodes0 := storage.nodes;
      AtRoot(nodes0, depth, a, b, key);
      AtNode(nodes0, t0, fs, cur, h, a, b, key);
      ghost var f := Step(cur, position);
      InnerFound(nodes0, t0, fs, cur, position, h, a, b, key);
      InnerPreceded(t0, fs, cur, position, h, a, b, key);
      var leftChildId := currentNode.children[position];
      var valueToReplace;
      ghost var tail, leaf, hl;
      StepsUp(fs, f, leftChildId);
      status, valueToReplace, tail, leaf, hl :=
        PopLargest(path, leftChildId, position, fs + [f], cur.kids[position], h - 1, t0);
      if status != Done {
        return;
      }
      PredecessorTaken(nodes0, fs, f, tail, leaf, hl, a, b);
      storage.WriteValue(currentNode.id, position, valueToReplace);
      ghost var c := leaf.(values := leaf.values[..|leaf.values| - 1]);
      ghost var g := if storage.SharesSlices() then Reseparated(f, valueToReplace) else f;
      StepsReseparated(fs, f, valueToReplace, tail, c.id);
      PlugFirst(fs + [f] + tail, leaf);
      PlugFirst(fs + [g] + tail, c);
      ghost var left := if storage.SharesSlices() then Drop(InOrder(t0), key) else DropBefore(InOrder(t0), key);
      status := BalanceTreeAfterDelete(path, fs + [g] + tail, c, hl, left);
    }

    method PopLargest(visitedNodes: Stack<DeleteStep>, nodeId0: nat, positionInParent0: nat,
                      ghost fs: Path<Entry<V>>, ghost cur0: Shape<Entry<V>>, ghost h0: nat, ghost t0: Shape<Entry<V>>)
      returns (status: Status, value: Entry<V>, ghost tail: Path<Entry<V>>, ghost leaf: Shape<Entry<V>>, ghost h: nat)
      requires storage.Valid() && storage.outstanding == {} && b <= storage.b && Holds(storage.nodes, t0)
      requires Placed(fs, cur0, h0, a, b) && fs != [] && Plug(fs, cur0) == t0 && nodeId0 == cur0.id
      requires Steps(fs, cur0.id) == visitedNodes.values + [DeleteStep(cur0.id, positionInParent0)]
      requires visitedNodes !in storage.repr && Apart()
      modifies visitedNodes, storage`nodes, storage`outstanding, storage.repr
      ensures storage.Valid() && storage.outstanding == {}
      ensures status == Done
      ensures Placed(fs + tail, leaf, h, a, b) && Plug(fs + tail, leaf) == t0 && h0 == h + |tail|
      ensures Rightmost(tail) && leaf.kids == [] && leaf.values != [] && value == leaf.values[|leaf.values| - 1]
      ensures visitedNodes.values == Steps(fs + tail, leaf.id)
      ensures leaf.id in old(storage.nodes)
      ensures storage.nodes == old(storage.nodes)[leaf.id := View(leaf.(values := leaf.values[..|leaf.values| - 1]))]
      ensures forall n :: old(storage.SpaceFor(n)) ==> storage.SpaceFor(n)
    {
      hide Holds, Placed, Plug, Steps, InOrder, Rightmost, NodeStorage.Valid, NodeStorage.SpaceFor;
      tail, leaf, h := [], cur0, h0;
      assert fs + [] == fs;
      RightmostNone<Entry<V>>();
      var nodeId: nat, positionInParent: nat := nodeId0, positionInParent0;
      var currentNode, stored;
      while true
        invariant unchanged(storage) && unchanged(storage.repr)
        invariant Placed(fs + tail, leaf, h, a, b) && Plug(fs + tail, leaf) == t0 && h0 == h + |tail|
        invariant Rightmost(tail) && nodeId == leaf.id
        invariant Steps(fs + tail, leaf.id) == visitedNodes.values + [DeleteStep(leaf.id, positionInParent)]
        decreases h
      {
        PlacedNode(storage.nodes, fs + tail, leaf, h, a, b);
        currentNode, stored := storage.Get(nodeId);
        if !stored {
          return StorageError, value, tail, leaf, h;
        }
        visitedNodes.Push(DeleteStep(currentNode.id, positionInParent));
        if currentNode.leaf {
          break;
        }
        positionInParent := |currentNode.children| - 1;
        DownRightmost(fs, tail, leaf, h, a, b);
        StepsDown(fs + tail, leaf, positionInParent);
        tail, leaf, h := tail + [Step(leaf, positionInParent)], leaf.kids[positionInParent], h - 1;
        nodeId := currentNode.children[positionInParent];
      }
      value := currentNode.values[|currentNode.values| - 1];
      currentNode := currentNode.(values := currentNode.values[..|currentNode.values| - 1]);
      storage.Persist(currentNode);
      status := Done;
    }

    method Merge(middleValuePosition: nat, left: Node<Entry<V>>, right: Node<Entry<V>>, parent: Node<Entry<V>>,
                 parentIsRoot: bool)
      returns (newParent: Node<Entry<V>>)
      requires storage.Valid() && storage.outstanding == {} && b <= storage.b
      requires middleValuePosition < |parent.values| && middleValuePosition + 1 < |parent.children|
      requires storage.Fits(parent) && storage.Fits(left) && storage.Fits(right)
      requires left.leaf == right.leaf && !parent.leaf && |left.values| + |right.values| + 1 < storage.b
      requires parent.id in storage.nodes && left.id in storage.nodes && right.id in storage.nodes
      requires left.id != right.id && left.id != parent.id && right.id != parent.id
      requires left.id != ROOT_ID && right.id != ROOT_ID
      requires depth == storage.depth > 0 && Apart()
      modifies this, storage, storage.repr
      ensures storage.Valid() && storage.outstanding == {} && storage.Fits(newParent)
      ensures newParent == parent.(values := Removed(parent.values, middleValuePosition),
                                   children := Removed(parent.children, middleValuePosition + 1))
      ensures var merged := left.(values := left.values + [parent.values[middleValuePosition]] + right.values,
                                  children := left.children + right.children);
              if parentIsRoot && |parent.values| == 1
              then depth == storage.depth == old(depth) - 1
                   && storage.nodes
                      == (old(storage.nodes) - {left.id} - {right.id})[parent.id := merged.(id := parent.id)]
              else depth == storage.depth == old(depth)
                   && storage.nodes == (old(storage.nodes)[parent.id := newParent] - {right.id})[left.id := merged]
      ensures forall n :: old(storage.SpaceFor(n)) ==> storage.SpaceFor(n)
    {
      hide NodeStorage.Valid, NodeStorage.Writable, NodeStorage.SpaceFor;
      storage.WritableRemoved(parent.children, middleValuePosition + 1);
      storage.WritableJoined(left.children, right.children);
      var merged, middleValue := left, parent.values[middleValuePosition];
      newParent := parent.(children := Removed(parent.children, middleValuePosition + 1));
      newParent := newParent.(values := Removed(newParent.values, middleValuePosition));
      merged := merged.(values := left.values + [middleValue] + right.values);
      merged := merged.(children := left.children + right.children);
      if parentIsRoot && |newParent.values| == 0 {
        var _ := storage.Remove(merged.id);
        merged := merged.(id := newParent.id);
        storage.DepthIsWritable(depth - 1);
        UpdateDepth(depth - 1);
      } else {
        storage.Persist(newParent);
      }
      var _ := storage.Remove(right.id);
      storage.Persist(merged);
    }

    /** Everything but the rest of the path, once the deficient node and a neighbour have been dealt with. */
    ghost predicate TurnDone(gs: Path<Entry<V>>, f: Frame<Entry<V>>, up: Shape<Entry<V>>, h: nat, s: seq<Entry<V>>,
                             parent: Node<Entry<V>>, collapsed: bool)
      reads this, storage, storage.repr
    {
      && storage.Valid() && storage.outstanding == {} && b <= storage.b && depth == storage.depth
      && Apart()
      && (collapsed ==>
            && gs == [] && depth == h
            && TreeStored(storage.nodes, h, a, b) && InOrder(Unfold(storage.nodes, 0, h)) == s)
      && (!collapsed ==>
            && depth == h + 1 + |gs| && Balancing(storage.nodes, gs, up, h + 1, a, b, s)
            && parent == View(up) && up.id == f.id && storage.Fits(parent))
    }

    ghost predicate TurnReady(gs: Path<Entry<V>>, f: Frame<Entry<V>>, cur: Shape<Entry<V>>, h: nat, s: seq<Entry<V>>,
                              node: Node<Entry<V>>, parent: Node<Entry<V>>)
      reads this, storage, storage.repr
    {
      && storage.Valid() && storage.outstanding == {} && b <= storage.b && depth == storage.depth == h + 1 + |gs|
      && Apart()
      && Balancing(storage.nodes, gs + [f], cur, h, a, b, s) && Plug(gs + [f], cur).id == ROOT_ID
      && node == View(cur) && parent == View(Fill(f, cur)) && |cur.values| + 1 < a
      && storage.Fits(node) && storage.Fits(parent)
    }

    lemma FitsLentByRight(p: Node<Entry<V>>, i: nat, n: Node<Entry<V>>, y: Node<Entry<V>>,
                          p': Node<Entry<V>>, n': Node<Entry<V>>, y': Node<Entry<V>>)
      requires LentByRight(p, i, n, y, p', n', y') && storage.Fits(p) && storage.Fits(n) && storage.Fits(y)
      requires n.leaf == y.leaf && |n.values| + 1 < storage.b
      ensures storage.Fits(p') && storage.Fits(n') && storage.Fits(y')
    {
      hide NodeStorage.Writable;
      if !n.leaf {
        storage.WritableParts(y.children, 0, 1);
        assert y.children[0..1] == [y.children[0]];
        storage.WritableJoined(n.children, [y.children[0]]);
        storage.WritableRemoved(y.children, 0);
      }
    }

    lemma FitsLentByLeft(p: Node<Entry<V>>, i: nat, x: Node<Entry<V>>, n: Node<Entry<V>>,
                         p': Node<Entry<V>>, x': Node<Entry<V>>, n': Node<Entry<V>>)
      requires LentByLeft(p, i, x, n, p', x', n') && storage.Fits(p) && storage.Fits(n) && storage.Fits(x)
      requires n.leaf == x.leaf && |n.values| + 1 < storage.b
      ensures storage.Fits(p') && storage.Fits(n') && storage.Fits(x')
    {
      hide NodeStorage.Writable;
      if !n.leaf {
        var last := |x.children| - 1;
        storage.WritableParts(x.children, last, last + 1);
        assert x.children[last..last + 1] == [x.children[last]];
        storage.WritableJoined([x.children[last]], n.children);
        storage.WritableParts(x.children, 0, last);
      }
    }

    static method BorrowFromRight(parent0: Node<Entry<V>>, position: nat, node0: Node<Entry<V>>,
                                  sibling0: Node<Entry<V>>)
      returns (parent: Node<Entry<V>>, node: Node<Entry<V>>, sibling: Node<Entry<V>>)
      requires position < |parent0.values| && sibling0.values != [] && (!node0.leaf ==> sibling0.children != [])
      ensures LentByRight(parent0, position, node0, sibling0, parent, node, sibling)
      ensures node.values + [parent.values[position]] + sibling.values
           == node0.values + [parent0.values[position]] + sibling0.values
      ensures node0.leaf == sibling0.leaf ==> node.children + sibling.children == node0.children + sibling0.children
      ensures |node.values| == |node0.values| + 1 && |parent.values| == |parent0.values|
      ensures |sibling.values| == |sibling0.values| - 1
    {
      var valueFromSibling, valueFromParent := sibling0.values[0], parent0.values[position];
      sibling := sibling0.(values := Removed(sibling0.values, 0));
      parent := parent0.(values := parent0.values[position := valueFromSibling]);
      node := node0.(values := node0.values + [valueFromParent]);
      if !node.leaf {
        var childFromSibling := sibling.children[0];
        sibling := sibling.(children := Removed(sibling.children, 0));
        node := node.(children := node.children + [childFromSibling]);
      }
    }

    static method BorrowFromLeft(parent0: Node<Entry<V>>, position: nat, sibling0: Node<Entry<V>>,
                                 node0: Node<Entry<V>>)
      returns (parent: Node<Entry<V>>, sibling: Node<Entry<V>>, node: Node<Entry<V>>)
      requires position < |parent0.values| && sibling0.values != [] && (!node0.leaf ==> sibling0.children != [])
      ensures LentByLeft(parent0, position, sibling0, node0, parent, sibling, node)
      ensures sibling.values + [parent.values[position]] + node.values
           == sibling0.values + [parent0.values[position]] + node0.values
      ensures node0.leaf == sibling0.leaf ==> sibling.children + node.children == sibling0.children + node0.children
      ensures |node.values| == |node0.values| + 1 && |parent.values| == |parent0.values|
      ensures |sibling.values| == |sibling0.values| - 1
    {
      var valueFromSibling, valueFromParent := sibling0.values[|sibling0.values| - 1], parent0.values[position];
      sibling := sibling0.(values := sibling0.values[..|sibling0.values| - 1]);
      parent := parent0.(values := parent0.values[position := valueFromSibling]);
      node := node0.(values := [valueFromParent] + node0.values);
      if !node.leaf {
        var childFromSibling := sibling.children[|sibling.children| - 1];
        sibling := sibling.(children := sibling.children[..|sibling.children| - 1]);
        node := node.(children := [childFromSibling] + node.children);
      }
    }

    /** The deficient node is the first child: borrow from the right sibling or merge with it. */
    method MendWithRight(node0: Node<Entry<V>>, parent0: Node<Entry<V>>, parentIsRoot: bool,
                         ghost gs: Path<Entry<V>>, ghost f: Frame<Entry<V>>, ghost cur: Shape<Entry<V>>,
                         ghost h: nat, ghost s: seq<Entry<V>>)
      returns (status: Status, parent: Node<Entry<V>>, ghost up: Shape<Entry<V>>, ghost collapsed: bool)
      requires TurnReady(gs, f, cur, h, s, node0, parent0) && |f.left| == 0 && parentIsRoot == (gs == [])
      modifies this, storage, storage.repr
      ensures status == Done
      ensures collapsed ==> gs == []
      ensures TurnDone(gs, f, up, h, s, parent, collapsed)
      ensures forall n :: old(storage.SpaceFor(n)) ==> storage.SpaceFor(n)
    {
      hide Balancing, TreeStored, Unfold, InOrder, NodeStorage.Valid, Plug, Written, WrittenIds, Removed, PairedFits,
           Bags, Ids, Merged,
           NodeStorage.Fits, NodeStorage.SpaceFor;
      ghost var nodes := storage.nodes;
      RightPair(nodes, gs, f, cur, h, a, b, s);
      ghost var y, m, j := f.right[0], f.values[0], WithRight(f);
      ghost var p', n', y', z;
      PairNodesFits(nodes, gs, f, cur, h, a, b, s, j, cur, m, y);
      var node, sibling, stored;
      node, parent, up, collapsed := node0, parent0, cur, false;
      sibling, stored := storage.Get(parent.children[1]);
      if !stored {
        return StorageError, parent, up, collapsed;
      }
      if |sibling.values| >= a {
        up, p', n', y' := LendFromRight(nodes, gs, f, cur, h, a, b, s);
        ghost var p0, n0, y0 := parent, node, sibling;
        parent, node, sibling := BorrowFromRight(parent, 0, node, sibling);
        FitsLentByRight(p0, 0, n0, y0, parent, node, sibling);
        WrittenThree(nodes, sibling, parent, node);
        storage.PersistMultiple([sibling, parent, node]);
      } else {
        collapsed := parentIsRoot && |parent.values| == 1;
        up, p', z := MergeTurn(nodes, gs, f, cur, h, a, b, s, j, cur, m, y);
        parent := Merge(0, node, sibling, parent, parentIsRoot);
      }
      status := Done;
    }

    /** Borrow from the left sibling or merge with it. */
    method MendWithLeft(positionInParent: nat, node0: Node<Entry<V>>, parent0: Node<Entry<V>>, parentIsRoot: bool,
                        ghost gs: Path<Entry<V>>, ghost f: Frame<Entry<V>>, ghost cur: Shape<Entry<V>>,
                        ghost h: nat, ghost s: seq<Entry<V>>)
      returns (status: Status, parent: Node<Entry<V>>, ghost up: Shape<Entry<V>>, ghost collapsed: bool)
      requires TurnReady(gs, f, cur, h, s, node0, parent0) && parentIsRoot == (gs == [])
      requires |f.left| == positionInParent > 0
      modifies this, storage, storage.repr
      ensures status == Done
      ensures collapsed ==> gs == []
      ensures TurnDone(gs, f, up, h, s, parent, collapsed)
      ensures forall n :: old(storage.SpaceFor(n)) ==> storage.SpaceFor(n)
    {
      hide Balancing, TreeStored, Unfold, InOrder, NodeStorage.Valid, Plug, Written, WrittenIds, Removed, PairedFits,
           Bags, Ids, Merged,
           NodeStorage.Fits, NodeStorage.SpaceFor;
      ghost var nodes := storage.nodes;
      LeftPair(nodes, gs, f, cur, h, a, b, s);
      ghost var x, m, j := f.left[|f.left| - 1], f.values[|f.left| - 1], WithLeft(f);
      ghost var p', x', n', z;
      PairNodesFits(nodes, gs, f, cur, h, a, b, s, j, x, m, cur);
      var leftSiblingPosition := positionInParent - 1;
      var node, sibling, stored;
      node, parent, up, collapsed := node0, parent0, cur, false;
      sibling, stored := storage.Get(parent.children[leftSiblingPosition]);
      if !stored {
        return StorageError, parent, up, collapsed;
      }
      if |sibling.values| >= a {
        up, p', x', n' := LendFromLeft(nodes, gs, f, cur, h, a, b, s);
        ghost var p0, n0, x0 := parent, node, sibling;
        parent, sibling, node := BorrowFromLeft(parent, leftSiblingPosition, sibling, node);
        FitsLentByLeft(p0, leftSiblingPosition, x0, n0, parent, sibling, node);
        WrittenThree(nodes, sibling, parent, node);
        storage.PersistMultiple([sibling, parent, node]);
      } else {
        collapsed := parentIsRoot && |parent.values| == 1;
        up, p', z := MergeTurn(nodes, gs, f, cur, h, a, b, s, j, x, m, cur);
        parent := Merge(leftSiblingPosition, sibling, node, parent, parentIsRoot);
      }
      status := Done;
    }

    method BalanceTreeAfterDelete(path: Stack<DeleteStep>, ghost fs0: Path<Entry<V>>, ghost cur0: Shape<Entry<V>>,
                                  ghost h0: nat, ghost s: seq<Entry<V>>)
      returns (status: Status)
      requires storage.Valid() && storage.outstanding == {} && b <= storage.b && depth == storage.depth == h0 + |fs0|
      requires Balancing(storage.nodes, fs0, cur0, h0, a, b, s) && Plug(fs0, cur0).id == ROOT_ID
      requires path.values == Steps(fs0, cur0.id) && path !in storage.repr && Apart()
      modifies this, storage, storage.repr, path
      ensures status == Done
      ensures Valid() && Pairs() == s && depth <= old(depth)
      ensures forall n :: old(storage.SpaceFor(n)) ==> storage.SpaceFor(n)
    {
      hide Balancing, TreeStored, Unfold, InOrder, NodeStorage.Valid, NodeStorage.SpaceFor, NodeStorage.Fits, Plug,
           Steps, Apart;
      ghost var fs, cur, h: nat := fs0, cur0, h0;
      BalancingNode(storage.nodes, fs, cur, h, a, b, s);
      StepsLength(fs, cur.id);
      if path.Count() <= 1 {
        Mended(storage.nodes, fs, cur, h, a, b, s);
        return Done;
      }
      var toCheck := path.Pop();
      var node, stored := storage.Get(toCheck.visitedNode);
      while true
        invariant storage.Valid() && storage.outstanding == {} && depth == storage.depth == h + |fs| <= old(depth)
        invariant fs != [] && Balancing(storage.nodes, fs, cur, h, a, b, s) && Plug(fs, cur).id == ROOT_ID
        invariant stored && node == View(cur) && storage.Fits(node)
        invariant path.values + [toCheck] == Steps(fs, cur.id)
        invariant forall n :: old(storage.SpaceFor(n)) ==> storage.SpaceFor(n)
        decreases |fs|
      {
        if |node.values| + 1 >= a {
          Mended(storage.nodes, fs, cur, h, a, b, s);
          return Done;
        }
        ghost var gs, f := fs[..|fs| - 1], fs[|fs| - 1];
        assert fs == gs + [f];
        StepsUp(gs, f, cur.id);
        StepsLength(gs, f.id);
        LastEqual(path.values, toCheck, Steps(gs, f.id), DeleteStep(cur.id, |f.left|));
        ParentNode(storage.nodes, gs, f, cur, h, a, b, s);
        var parentStep := path.Pop();
        var parent;
        parent, stored := storage.Get(parentStep.visitedNode);
        if !stored {
          return StorageError;
        }
        var parentIsRoot := path.Empty();
        ghost var up, collapsed;
        if toCheck.positionInParent == 0 {
          status, parent, up, collapsed := MendWithRight(node, parent, parentIsRoot, gs, f, cur, h, s);
        } else {
          status, parent, up, collapsed :=
            MendWithLeft(toCheck.positionInParent, node, parent, parentIsRoot, gs, f, cur, h, s);
        }
        node := parent;
        toCheck := parentStep;
        if !collapsed {
          PlugLast(gs, f, cur);
          PlugIdOnly(gs, Fill(f, cur), up);
          fs, cur, h := gs, up, h + 1;
        }
        if parentIsRoot {
          if !collapsed {
            Mended(storage.nodes, fs, cur, h, a, b, s);
          }
          return Done;
        }
      }
    }
  }
}
