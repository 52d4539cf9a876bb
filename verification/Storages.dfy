/** The node storage as the tree sees it: nodes by id, kept in memory or in a file. */
module Storages {
  import opened Bytes
  import opened Blueprints
  import opened RoundTrip
  import opened Shapes
  import opened Blocks
  import opened NodeBlocks
  import opened FreeChains
  import opened Encodings
  import opened InMemory
  import opened Slices
  import opened Links
  import opened Renaming
  import Persistent
  import Defragmentation

  /** A file stores the encoded entries. */
  datatype Backing<!E> =
    | Memory(memory: InMemoryStorage<E>)
    | File(file: Persistent.PersistentStorage, encode: E -> Value, decode: Value -> E)

  const UINT_CAP: nat := 0x1_0000_0000_0000_0000

  type uint = n: nat | n < UINT_CAP

  ghost predicate Addressable(ids: seq<nat>) {
    forall i :: 0 <= i < |ids| ==> ids[i] < UINT_CAP
  }

  /** A node within the bounds of the tree is stored in a block as it is. */
  lemma EncodedFits<E(!new)>(L: Layout, encode: E -> Value, decode: Value -> E, n: Node<E>)
    requires SoundLayout(L) && Coding(EntryBp(L), encode, decode) && Roomy(n, L.b) && Addressable(n.children)
    ensures Storable(L, EncodedNode(encode, n)) && Stored(L, EncodedNode(encode, n)) == EncodedNode(encode, n)
  {
    hide Sound, Typed, Exact, Stored, Pow256;
    EightBytes();
    SoundParts(L);
    var m := EncodedNode(encode, n);
    forall i | 0 <= i < |m.values| ensures Typed(EntryBp(L), m.values[i]) && Exact(EntryBp(L), m.values[i]) {
      assert m.values[i] == encode(n.values[i]);
      assert Codes(EntryBp(L), encode(n.values[i]));
    }
    StoredUnchanged(L, m);
  }

  lemma KnownId(p: Persistent.PersistentStorage, id: nat)
    requires p.Valid() && (id in p.Nodes() || id in p.outstanding)
    ensures id < |p.blocks| && id !in p.chain && id < UINT_CAP
    ensures id in p.Nodes() ==> id !in p.outstanding
  {
    hide Decodable, Decoded, Chained, SoundLayout;
    EightBytes();
    Persistent.IdFits(p.layout, p.file, p.blocks, id);
  }

  lemma RoomBounds(p: Persistent.PersistentStorage, n: nat)
    requires p.Placed() && Times(p.layout.padded, n) <= Persistent.MAX_FILE
    ensures n < UINT_CAP
  {
    hide Mirrors, Persistent.PersistentStorage.MetadataAgrees, Sound, NodeSize;
    SoundParts(p.layout);
    AtLeastItself(p.layout.padded, n);
  }

  lemma {:induction false} AtLeastItself(size: nat, n: nat)
    requires size > 0
    ensures n <= Times(size, n)
  {
    if n > 0 {
      AtLeastItself(size, n - 1);
    }
  }

  lemma RenamedKeys<E>(before: Store<E>, s: Renumbering, after: Store<E>)
    requires Renamed(before, s, after)
    ensures s.Keys == before.Keys && forall id :: id in after ==> Source(s, id)
  {
  }

  lemma IdsFit(p: Persistent.PersistentStorage)
    requires p.Valid()
    ensures forall id :: id in p.Nodes() ==> id < UINT_CAP
  {
    hide Decodable, Decoded, Chained, SoundLayout;
    forall id | id in p.Nodes() ensures id < UINT_CAP {
      KnownId(p, id);
    }
  }

  lemma {:induction false} FewBelow(keys: set<nat>, n: nat)
    requires forall k :: k in keys ==> k < n
    ensures |keys| <= n
    decreases n
  {
    if n > 0 {
      var fewer := keys - {n - 1};
      FewBelow(fewer, n - 1);
      assert keys <= fewer + {n - 1};
    } else {
      assert keys == {};
    }
  }

  lemma {:induction false} AtLeastBelow(keys: set<nat>, n: nat)
    requires forall k: nat :: k < n ==> k in keys
    ensures n <= |keys|
    decreases n
  {
    if n > 0 {
      AtLeastBelow(keys - {n - 1}, n - 1);
    }
  }

  /** Without free blocks every block is stored or handed out. */
  lemma AllTaken(p: Persistent.PersistentStorage)
    requires p.Valid() && p.chain == []
    ensures |p.blocks| <= |p.Nodes().Keys| + |p.outstanding|
  {
    hide Decodable, Decoded, Chained, SoundLayout;
    forall id: nat | id < |p.blocks| ensures id in p.Nodes().Keys + p.outstanding {
    }
    AtLeastBelow(p.Nodes().Keys + p.outstanding, |p.blocks|);
  }

  lemma FileLength(p: Persistent.PersistentStorage)
    requires p.Placed()
    ensures |p.file| == Start(p.layout, |p.blocks|)
  {
  }

  lemma StartGrows(L: Layout, n: nat, m: nat)
    requires n <= m
    ensures Start(L, n) <= Start(L, m)
  {
    TimesGrows(L.padded, n, m);
  }

  /** A new id stays within n blocks, when the nodes and the ids handed out are fewer. */
  lemma NextFits(p: Persistent.PersistentStorage, n: nat)
    requires p.Valid() && |p.Nodes().Keys| + |p.outstanding| < n && |p.file| <= Start(p.layout, n)
    ensures p.chain == [] ==> |p.file| + p.layout.padded == Start(p.layout, |p.blocks| + 1) <= Start(p.layout, n)
  {
    hide Mirrors, Start;
    FileLength(p);
    if p.chain == [] {
      AllTaken(p);
      StartOrder(p.layout, |p.blocks|, |p.blocks| + 1);
      StartGrows(p.layout, |p.blocks| + 1, n);
    }
  }

  /** The blocks of the stored nodes are not more than the file has. */
  lemma NodesInFile(p: Persistent.PersistentStorage)
    requires p.Valid()
    ensures Start(p.layout, |p.Nodes().Keys|) <= |p.file|
  {
    hide Decodable, Decoded, Chained, SoundLayout;
    forall id | id in p.Nodes() ensures id < |p.blocks| {
      KnownId(p, id);
    }
    FewBelow(p.Nodes().Keys, |p.blocks|);
    TimesGrows(p.layout.padded, |p.Nodes().Keys|, |p.blocks|);
  }

  class NodeStorage<E(!new)> {
    const backing: Backing<E>
    /** The bound on children for which node slices are laid out. */
    const b: nat
    ghost const repr: set<object>
    ghost var nodes: Store<E>
    /** Ids handed out by NewId and neither persisted nor removed since. */
    ghost var outstanding: set<nat>
    ghost var depth: nat

    ghost predicate Valid()
      reads this, repr
    {
      && this !in repr
      && Keyed(nodes) && ROOT_ID in nodes && (forall id :: id in nodes ==> Fits(nodes[id]))
      && (backing.Memory? ==> MemoryValid())
      && (backing.File? ==> FileValid())
    }

    ghost predicate MemoryValid()
      requires backing.Memory?
      reads this, repr
    {
      var m := backing.memory;
      && repr == {m, m.unusedIds} && m.Valid()
      && nodes == m.nodes && outstanding == m.outstanding && depth == m.depth
    }

    ghost predicate FileValid()
      requires backing.File?
      reads this, repr
    {
      var p := backing.file;
      && repr == {p} && p.Valid()
      && p.layout.b == b && outstanding == p.outstanding && depth == p.depth
      && Images(nodes, backing.encode, p.Nodes())
      && Coding(EntryBp(p.layout), backing.encode, backing.decode)
    }

    /** What the file can store as it is: b - 1 values, b children, and ids of 64 bits. */
    ghost predicate Fits(n: Node<E>) {
      (backing.File? ==> Roomy(n, b)) && Writable(n.children)
    }

    ghost predicate Writable(ids: seq<nat>) {
      backing.File? ==> Addressable(ids)
    }

    /** Whether a node that Get returns shares its value slice with the stored one. */
    predicate SharesSlices() {
      backing.Memory?
    }

    /** The file has n blocks at most, and n blocks lie within what offsets allow. */
    predicate SpaceFor(n: nat)
      reads if backing.File? then {backing.file} else {}
    {
      backing.File? ==> |backing.file.file| <= Start(backing.file.layout, n) <= Persistent.MAX_FILE
    }

    /** Space for n blocks makes a smaller number one that the file can write. */
    lemma SpaceIsWritable(n: nat, m: nat)
      requires Valid() && SpaceFor(n) && m <= n
      ensures Writable([m])
    {
      if backing.File? {
        RoomBounds(backing.file, n);
      }
    }

    lemma DepthIsWritable(d: nat)
      requires Valid() && d <= depth
      ensures Writable([d])
    {
      hide AllDecodable, Chained, Accounted, Mirrors, Images, Partitioned;
      EightBytes();
    }

    /** What fits depends on the number of values alone, and on the children. */
    lemma FitsAlike(n: Node<E>, values: seq<E>)
      requires Fits(n)
      ensures Writable(n.children) && (|values| == |n.values| ==> Fits(n.(values := values)))
    {
    }

    lemma WritableParts(ids: seq<nat>, i: nat, j: nat)
      requires Writable(ids) && i <= j <= |ids|
      ensures Writable(ids[i..j]) && Writable(ids[i..]) && Writable(ids[..j])
    {
    }

    lemma WritableJoined(x: seq<nat>, y: seq<nat>)
      requires Writable(x) && Writable(y)
      ensures Writable(x + y)
    {
    }

    lemma WritableRemoved(ids: seq<nat>, i: nat)
      requires Writable(ids) && i < |ids|
      ensures Writable(Removed(ids, i))
    {
    }

    lemma WritablePlaced(ids: seq<nat>, id: nat, target: nat)
      requires Writable(ids) && Writable([id]) && LastIndex(ids, target) >= 0
      ensures Writable(PlacedBefore(ids, id, target))
    {
      assert [id][0] == id;
    }

    constructor InMemory(b: nat)
      ensures Valid() && fresh(repr) && this.b == b && backing.Memory? && depth == 1 && outstanding == {}
      ensures nodes == map[ROOT_ID := Node(ROOT_ID, [], [], true)]
    {
      var m := new InMemoryStorage<E>();
      backing := Memory(m);
      repr := {m, m.unusedIds};
      this.b := b;
      nodes, outstanding, depth := m.nodes, m.outstanding, m.depth;
    }

    /** A file as NewPersistentStorage leaves it. */
    constructor OnFile(p: Persistent.PersistentStorage, encode: E -> Value, decode: Value -> E)
      requires p.Valid() && p.outstanding == {} && Coding(EntryBp(p.layout), encode, decode)
      requires p.Nodes() == map[ROOT_ID := Node(ROOT_ID, [], [], true)]
      ensures Valid() && repr == {p} && b == p.layout.b && backing == File(p, encode, decode)
      ensures depth == p.depth && outstanding == {}
      ensures nodes == map[ROOT_ID := Node(ROOT_ID, [], [], true)]
    {
      backing := File(p, encode, decode);
      repr := {p};
      b := p.layout.b;
      nodes, outstanding, depth := map[ROOT_ID := Node(ROOT_ID, [], [], true)], {}, p.depth;
      new;
      assert EncodedNode(encode, nodes[ROOT_ID]).values == [];
    }

    method GetDepth() returns (d: nat)
      requires Valid()
      ensures d == depth
    {
      match backing
      case Memory(m) => d := m.depth;
      case File(p, _, _) => d := p.depth;
    }

    method SetDepth(d: nat)
      requires Valid() && (backing.File? ==> d < UINT_CAP)
      modifies this`depth, repr
      ensures Valid() && depth == d
      ensures forall n :: old(SpaceFor(n)) ==> SpaceFor(n)
    {
      hide AllDecodable, Chained, Accounted, Mirrors, Persistent.PersistentStorage.MetadataAgrees, SoundLayout, NodesIn,
           Images, Coding, Fits, Start, Partitioned, Pow256, Times, Keyed;
      if backing.Memory? {
        backing.memory.SetDepth(d);
        depth := d;
      } else {
        EightBytes();
        backing.file.SetDepth(d);
        depth := d;
      }
    }

    /** The stored node, decoded anew from a file. */
    method Get(id: nat) returns (node: Node<E>, found: bool)
      requires Valid()
      ensures found <==> id in nodes
      ensures found ==> node == nodes[id] && Fits(node)
    {
      hide AllDecodable, Chained, Accounted, Mirrors, Persistent.PersistentStorage.MetadataAgrees, SoundLayout, NodesIn,
           Coding, Fits, Start, Partitioned, Roomy;
      if backing.Memory? {
        node, found := backing.memory.Get(id);
      } else {
        var status, stored := backing.file.Get(id);
        found := status == Persistent.Done;
        node := Node(stored.id, Mapped(backing.decode, stored.values), stored.children, stored.leaf);
        if found {
          DecodedAgain(EntryBp(backing.file.layout), backing.encode, backing.decode, nodes[id]);
        }
      }
    }

    /** The contract asks for the root or an id that was stored or handed out, and for a node that fits. */
    method Persist(node: Node<E>)
      requires Valid() && node.id in nodes.Keys + outstanding && Fits(node)
      modifies this`nodes, this`outstanding, repr
      ensures Valid()
      ensures nodes == old(nodes)[node.id := node]
      ensures outstanding == old(outstanding) - {node.id}
      ensures forall n :: old(SpaceFor(n)) ==> SpaceFor(n)
    {
      hide AllDecodable, Chained, Accounted, Mirrors, Persistent.PersistentStorage.MetadataAgrees, SoundLayout, NodesIn,
           Coding, Images, EncodedNode, Start, Partitioned, Roomy, Addressable, Stored, Storable, Times;
      if backing.Memory? {
        backing.memory.Persist(node);
      } else {
        var encoded := EncodedNode(backing.encode, node);
        EncodedFits(backing.file.layout, backing.encode, backing.decode, node);
        ImagesWritten(nodes, backing.encode, backing.file.Nodes(), node);
        EncodedId(backing.encode, node);
        ImagesKeys(nodes, backing.encode, backing.file.Nodes());
        KnownId(backing.file, node.id);
        backing.file.Persist(encoded);
      }
      nodes := nodes[node.id := node];
      outstanding := outstanding - {node.id};
    }

    /** The root stays: memory ignores the call, the file refuses it. */
    method Remove(id: nat) returns (ok: bool)
      requires Valid() && id in nodes
      modifies this`nodes, repr
      ensures Valid()
      ensures nodes == if id == ROOT_ID then old(nodes) else old(nodes) - {id}
      ensures !ok <==> id == ROOT_ID && backing.File?
      ensures forall n :: old(SpaceFor(n)) ==> SpaceFor(n)
    {
      hide AllDecodable, Chained, Accounted, Mirrors, Persistent.PersistentStorage.MetadataAgrees, SoundLayout, NodesIn,
           Coding, Images, Start, Partitioned, Roomy, Addressable, Times;
      if backing.Memory? {
        backing.memory.Remove(id);
        ok := true;
      } else {
        ImagesKeys(nodes, backing.encode, backing.file.Nodes());
        KnownId(backing.file, id);
        ImagesRemoved(nodes, backing.encode, backing.file.Nodes(), id);
        var status := backing.file.Remove(id);
        ok := status == Persistent.Done;
      }
      if id != ROOT_ID {
        nodes := nodes - {id};
      }
    }

    /** The blocks are within any n that exceeds the number of nodes, handed-out ids included. */
    method NewId(ghost n: nat) returns (id: nat)
      requires Valid() && SpaceFor(n) && |nodes.Keys| + |outstanding| < n
      modifies this`outstanding, repr
      ensures Valid()
      ensures id !in nodes && id !in old(outstanding) && id != ROOT_ID && Writable([id])
      ensures outstanding == old(outstanding) + {id} && |outstanding| == |old(outstanding)| + 1
      ensures SpaceFor(n)
    {
      hide AllDecodable, Chained, Accounted, Mirrors, Persistent.PersistentStorage.MetadataAgrees, SoundLayout, NodesIn,
           Coding, Images, Start, Partitioned, Roomy;
      if backing.Memory? {
        id := backing.memory.NewId();
      } else {
        ImagesKeys(nodes, backing.encode, backing.file.Nodes());
        FileLength(backing.file);
        NextFits(backing.file, n);
        var _, newId := backing.file.NewId();
        id := newId;
        FileLength(backing.file);
        KnownId(backing.file, id);
      }
      outstanding := outstanding + {id};
    }

    /** A write into the value slice of a node that Get returned, without a Persist after it. */
    method WriteValue(id: nat, position: nat, value: E)
      requires Valid() && id in nodes && position < |nodes[id].values|
      modifies this`nodes, repr
      ensures Valid()
      ensures !SharesSlices() ==> nodes == old(nodes)
      ensures SharesSlices() ==>
        var n := old(nodes)[id];
        nodes == old(nodes)[id := n.(values := n.values[position := value])]
      ensures forall n :: old(SpaceFor(n)) ==> SpaceFor(n)
    {
      hide AllDecodable, Chained, Accounted, Mirrors, Persistent.PersistentStorage.MetadataAgrees, SoundLayout, NodesIn,
           Coding, Images, Start, Partitioned;
      if backing.Memory? {
        var n := nodes[id];
        backing.memory.WriteValue(id, position, value);
        nodes := nodes[id := n.(values := n.values[position := value])];
      }
    }

    /** Persists several nodes in turn. */
    method PersistMultiple(ns: seq<Node<E>>)
      requires Valid()
      requires forall i :: 0 <= i < |ns| ==> ns[i].id in nodes.Keys + outstanding && Fits(ns[i])
      modifies this`nodes, this`outstanding, repr
      ensures Valid()
      ensures nodes == Written(old(nodes), ns)
      ensures outstanding == old(outstanding) - WrittenIds(ns)
      ensures forall n :: old(SpaceFor(n)) ==> SpaceFor(n)
    {
      hide Valid, Fits, Written, WrittenIds, SpaceFor;
      WrittenNone(nodes);
      assert ns[..0] == [];
      var i := 0;
      while i < |ns|
        invariant 0 <= i <= |ns| && Valid()
        invariant nodes == Written(old(nodes), ns[..i])
        invariant outstanding == old(outstanding) - WrittenIds(ns[..i])
        invariant nodes.Keys + outstanding == old(nodes.Keys + outstanding)
        invariant forall n :: old(SpaceFor(n)) ==> SpaceFor(n)
      {
        WrittenMore(old(nodes), ns[..i], ns[i]);
        assert ns[..i + 1] == ns[..i] + [ns[i]];
        Persist(ns[i]);
        i := i + 1;
      }
      assert ns[..|ns|] == ns;
    }

    /** Compacts the file: the same nodes under ids without gaps. */
    method Defragment(ghost t: Shape<E>) returns (status: Persistent.Status, ghost s: Renumbering)
      requires Valid() && outstanding == {} && backing.File? && Holds(nodes, t) && t.id == ROOT_ID
      modifies this`nodes, repr
      ensures Valid() && status == Persistent.Done
      ensures Renamed(old(nodes), s, nodes) && ROOT_ID in s && s[ROOT_ID] == ROOT_ID
      ensures forall id: nat :: id in nodes <==> id < |old(nodes).Keys|
      ensures |backing.file.file| == Start(backing.file.layout, |old(nodes).Keys|)
      ensures backing.file.freeId == Persistent.NO_FREE_ID
      ensures forall n :: old(SpaceFor(n)) ==> SpaceFor(n)
    {
      hide AllDecodable, Chained, Accounted, Mirrors, Persistent.PersistentStorage.MetadataAgrees, SoundLayout, NodesIn,
           Coding, Images, Start, Renamed, Holds, EncodedShape, Distinguishes, Fits, Keyed, Times;
      ghost var stored := backing.file.Nodes();
      ImagesKeys(nodes, backing.encode, stored);
      CodingDistinguishes(EntryBp(backing.file.layout), backing.encode, backing.decode);
      HoldsEncoded(nodes, backing.encode, stored, t);
      EncodedRoot(backing.encode, t);
      NodesInFile(backing.file);
      status, s := Defragmentation.Defragment(backing.file, EncodedShape(backing.encode, t));
      IdsFit(backing.file);
      ghost var after := Carried(nodes, stored, s, backing.file.Nodes(), t);
      nodes := after;
    }

    /** What the file holds after a renaming stands for the renamed nodes. */
    lemma Carried(before: Store<E>, stored: Store<Value>, s: Renumbering, after: Store<Value>, t: Shape<E>)
      returns (nodes': Store<E>)
      requires backing.File? && Images(before, backing.encode, stored) && Renamed(stored, s, after)
      requires Holds(before, t) && t.id == ROOT_ID && ROOT_ID in s && s[ROOT_ID] == ROOT_ID
      requires forall id :: id in before ==> Fits(before[id])
      requires forall id :: id in after ==> id < UINT_CAP
      ensures Renamed(before, s, nodes') && Images(nodes', backing.encode, after) && Keyed(nodes')
      ensures nodes'.Keys == after.Keys && ROOT_ID in nodes' && forall id :: id in nodes' ==> Fits(nodes'[id])
    {
      hide Images, Renamed, Fits, RenamedStore, Holds, Closed;
      ImagesKeys(before, backing.encode, stored);
      RenamedKeys(stored, s, after);
      RenamedImages(before, backing.encode, stored, s, after);
      nodes' := RenamedStore(before, s, after.Keys);
      ImagesKeys(nodes', backing.encode, after);
      HoldsClosed(before, t);
      HoldsKeyed(before, t);
      RenamedClosed(before, s, nodes', ROOT_ID);
      ClosedRoot(nodes');
      RenamedFits(before, s, nodes');
    }

    lemma HoldsKeyed(before: Store<E>, t: Shape<E>)
      requires Holds(before, t)
      ensures Keyed(before)
    {
    }

    lemma ClosedRoot(after: Store<E>)
      requires Closed(after, ROOT_ID)
      ensures ROOT_ID in after
    {
    }

    /** Renamed nodes fit, when the ids do. */
    lemma RenamedFits(before: Store<E>, s: Renumbering, after: Store<E>)
      requires Renamed(before, s, after) && (forall id :: id in before ==> Fits(before[id]))
      requires Closed(after, ROOT_ID) && forall id :: id in after ==> id < UINT_CAP
      ensures forall id :: id in after ==> Fits(after[id])
    {
      forall id | id in after ensures Fits(after[id]) {
        assert Source(s, id);
        var x :| x in s && s[x] == id;
        assert after[id] == RenamedNode(s, before[x]) && Fits(before[x]);
        forall i | 0 <= i < |after[id].children| ensures after[id].children[i] < UINT_CAP {
          assert after[id].children[i] in after;
        }
      }
    }
  }
}
