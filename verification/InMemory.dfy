/** The map-backed node storage. */
module InMemory {
  import opened Shapes
  import opened Stacks

  /** The stored ids, those handed out, the holes, and the first id never used. */
  datatype IdState = IdState(live: set<nat>, outstanding: set<nat>, holes: seq<nat>, cap: nat)

  class InMemoryStorage<E> {
    var nodes: Store<E>
    const unusedIds: Stack<nat>
    var idCap: nat
    var depth: nat
    /** Ids handed out by NewId and neither persisted nor removed since. */
    ghost var outstanding: set<nat>

    ghost predicate Valid()
      reads this, unusedIds
    {
      && Keyed(nodes)
      && ROOT_ID in nodes
      && Partitioned(nodes.Keys, outstanding, unusedIds.values, idCap)
    }

    /** Who has which id. */
    ghost function Ids(): IdState
      reads this, unusedIds
    {
      IdState(nodes.Keys, outstanding, unusedIds.values, idCap)
    }

    constructor ()
      ensures Ids() == IdState({ROOT_ID}, {}, [], 1)
      ensures Valid() && fresh(unusedIds)
      ensures nodes == map[ROOT_ID := Node(ROOT_ID, [], [], true)]
      ensures depth == 1 && outstanding == {}
    {
      nodes := map[ROOT_ID := Node(ROOT_ID, [], [], true)];
      unusedIds := new Stack();
      idCap := 1;
      depth := 1;
      outstanding := {};
    }

    method SetDepth(depth: nat)
      requires Valid()
      modifies this`depth
      ensures Valid() && this.depth == depth
    {
      this.depth := depth;
    }

    method Get(id: nat) returns (node: Node<E>, found: bool)
      ensures found <==> id in nodes
      ensures found ==> node == nodes[id]
    {
      found := id in nodes;
      node := if found then nodes[id] else Node(0, [], [], false);
    }

    /** The contract asks for an id that was stored or handed out. */
    method Persist(node: Node<E>)
      requires Valid() && node.id in nodes.Keys + outstanding
      modifies this`nodes, this`outstanding
      ensures Valid()
      ensures nodes == old(nodes)[node.id := node]
      ensures outstanding == old(outstanding) - {node.id}
      ensures Ids() == StoreId(old(Ids()), node.id)
    {
      nodes := nodes[node.id := node];
      outstanding := outstanding - {node.id};
    }

    /** A write into the value slice of a node that Get returned, without a Persist after it: the stored node has the
        same slice. */
    method WriteValue(id: nat, position: nat, value: E)
      requires Valid() && id in nodes && position < |nodes[id].values|
      modifies this`nodes
      ensures Valid()
      ensures var n := old(nodes)[id]; nodes == old(nodes)[id := n.(values := n.values[position := value])]
    {
      var n := nodes[id];
      var changed := n.(values := n.values[position := value]);
      nodes := nodes[id := changed];
    }

    method Remove(id: nat)
      requires Valid()
      modifies this, unusedIds
      ensures Valid()
      ensures depth == old(depth) && outstanding == old(outstanding)
      ensures nodes == if id == ROOT_ID then old(nodes) else old(nodes) - {id}
      ensures Ids() == DropId(old(Ids()), id)
      ensures id == ROOT_ID || id !in old(nodes) ==> idCap == old(idCap) && unusedIds.values == old(unusedIds.values)
      ensures id != ROOT_ID && id in old(nodes) ==>
        if id + 1 == old(idCap) then idCap == old(idCap) - 1 && unusedIds.values == old(unusedIds.values)
        else idCap == old(idCap) && unusedIds.values == old(unusedIds.values) + [id]
    {
      if id == ROOT_ID {
        return;
      }
      if id !in nodes {
        return;
      }
      if id + 1 == idCap {
        ShrinkCap(nodes.Keys, outstanding, unusedIds.values, idCap);
        nodes := nodes - {id};
        idCap := idCap - 1;
      } else {
        OpenHole(nodes.Keys, outstanding, unusedIds.values, idCap, id);
        nodes := nodes - {id};
        unusedIds.Push(id);
      }
    }

    method NewId() returns (id: nat)
      requires Valid()
      modifies this, unusedIds
      ensures Valid()
      ensures depth == old(depth) && nodes == old(nodes)
      ensures id !in nodes && id !in old(outstanding) && id != ROOT_ID
      ensures outstanding == old(outstanding) + {id}
      ensures Ids() == AskId(old(Ids()))
      ensures if old(unusedIds.values) == [] then id == old(idCap) && idCap == id + 1 && unusedIds.values == []
              else old(unusedIds.values) == unusedIds.values + [id] && idCap == old(idCap)
    {
      if unusedIds.Empty() {
        id := idCap;
        idCap := idCap + 1;
      } else {
        FillHole(nodes.Keys, outstanding, unusedIds.values, idCap);
        id := unusedIds.Pop();
      }
      outstanding := outstanding + {id};
    }
  }

  /** The store after writing each node of ns in turn. */
  ghost function Written<E>(nodes: Store<E>, ns: seq<Node<E>>): Store<E> {
    if ns == [] then nodes
    else Written(nodes, ns[..|ns| - 1])[ns[|ns| - 1].id := ns[|ns| - 1]]
  }

  ghost function WrittenIds<E>(ns: seq<Node<E>>): set<nat> {
    set i | 0 <= i < |ns| :: ns[i].id
  }

  lemma WrittenNone<E>(nodes: Store<E>)
    ensures Written(nodes, []) == nodes && WrittenIds<E>([]) == {}
  {
  }

  lemma WrittenMore<E>(nodes: Store<E>, ns: seq<Node<E>>, n: Node<E>)
    ensures Written(nodes, ns + [n]) == Written(nodes, ns)[n.id := n]
    ensures WrittenIds(ns + [n]) == WrittenIds(ns) + {n.id}
  {
    var more := ns + [n];
    assert more[..|ns|] == ns;
    assert forall i :: 0 <= i < |ns| ==> more[i] == ns[i];
    assert more[|ns|] == n;
    forall id ensures id in WrittenIds(more) <==> id in WrittenIds(ns) + {n.id} {
      if id in WrittenIds(ns) {
        var i :| 0 <= i < |ns| && ns[i].id == id;
        assert more[i].id == id;
      }
    }
  }

  lemma WrittenTwo<E>(nodes: Store<E>, x: Node<E>, y: Node<E>)
    ensures Written(nodes, [x, y]) == nodes[x.id := x][y.id := y]
    ensures WrittenIds([x, y]) == {x.id, y.id}
  {
    hide Written, WrittenIds;
    WrittenNone(nodes);
    WrittenMore(nodes, [], x);
    assert [] + [x] == [x] && [x] + [y] == [x, y];
    WrittenMore(nodes, [x], y);
  }

  lemma WrittenThree<E>(nodes: Store<E>, x: Node<E>, y: Node<E>, z: Node<E>)
    ensures Written(nodes, [x, y, z]) == nodes[x.id := x][y.id := y][z.id := z]
    ensures WrittenIds([x, y, z]) == {x.id, y.id, z.id}
  {
    hide Written, WrittenIds;
    WrittenTwo(nodes, x, y);
    WrittenMore(nodes, [x, y], z);
    assert [x, y] + [z] == [x, y, z];
  }

  /** Every id below cap is stored, handed out or waiting in the stack of holes: exactly one of the three,
      and on the stack once. */
  ghost predicate Partitioned(live: set<nat>, outstanding: set<nat>, holes: seq<nat>, cap: nat) {
    && live !! outstanding
    && (forall i, j :: 0 <= i < j < |holes| ==> holes[i] != holes[j])
    && (forall i :: 0 <= i < |holes| ==> holes[i] !in live && holes[i] !in outstanding)
    && (forall id: nat :: id < cap <==> id in live || id in outstanding || id in holes)
  }

  lemma FillHole(live: set<nat>, outstanding: set<nat>, holes: seq<nat>, cap: nat)
    requires Partitioned(live, outstanding, holes, cap) && holes != []
    ensures Partitioned(live, outstanding + {holes[|holes| - 1]}, holes[..|holes| - 1], cap)
    ensures holes[|holes| - 1] !in live + outstanding
  {
    var rest := holes[..|holes| - 1];
    assert holes == rest + [holes[|holes| - 1]];
    forall id: nat ensures id in holes <==> id in rest || id == holes[|holes| - 1] {
    }
  }

  lemma OpenHole(live: set<nat>, outstanding: set<nat>, holes: seq<nat>, cap: nat, id: nat)
    requires Partitioned(live, outstanding, holes, cap) && id in live
    ensures Partitioned(live - {id}, outstanding, holes + [id], cap)
  {
  }

  /** No hole is as high as the highest id once that id is stored, so the cap may drop below it. */
  lemma ShrinkCap(live: set<nat>, outstanding: set<nat>, holes: seq<nat>, cap: nat)
    requires Partitioned(live, outstanding, holes, cap) && cap > 0 && cap - 1 in live
    ensures Partitioned(live - {cap - 1}, outstanding, holes, cap - 1)
  {
  }

  // ---- the ids over a run ----

  datatype IdOp = AskOp | StoreOp(id: nat) | DropOp(id: nat)

  ghost function AskId(s: IdState): IdState {
    if s.holes == [] then s.(outstanding := s.outstanding + {s.cap}, cap := s.cap + 1)
    else
      var n := |s.holes| - 1;
      s.(outstanding := s.outstanding + {s.holes[n]}, holes := s.holes[..n])
  }

  ghost function StoreId(s: IdState, id: nat): IdState {
    s.(live := s.live + {id}, outstanding := s.outstanding - {id})
  }

  ghost function DropId(s: IdState, id: nat): IdState {
    if id == ROOT_ID || id !in s.live then s
    else if id + 1 == s.cap then s.(live := s.live - {id}, cap := s.cap - 1)
    else s.(live := s.live - {id}, holes := s.holes + [id])
  }

  /** An id that was neither stored nor handed out is not stored. */
  ghost function AfterIdOp(s: IdState, op: IdOp): IdState {
    match op
    case AskOp => AskId(s)
    case StoreOp(id) => if id in s.live + s.outstanding then StoreId(s, id) else s
    case DropOp(id) => DropId(s, id)
  }

  ghost function AfterIdOps(s: IdState, ops: seq<IdOp>): IdState {
    if ops == [] then s else AfterIdOp(AfterIdOps(s, ops[..|ops| - 1]), ops[|ops| - 1])
  }

  ghost predicate IdsAccounted(s: IdState) {
    Partitioned(s.live, s.outstanding, s.holes, s.cap)
  }

  /** How many ids are stored or handed out. */
  ghost function InHand(s: IdState): nat {
    |s.live| + |s.outstanding|
  }

  lemma {:induction false} CountBelow(ids: set<nat>, n: nat)
    requires forall id: nat :: id < n <==> id in ids
    ensures |ids| == n
    decreases n
  {
    if n > 0 {
      CountBelow(ids - {n - 1}, n - 1);
    } else {
      assert ids == {};
    }
  }

  /** The cap grows only where every id below it is in hand. */
  lemma CapStep(s: IdState, op: IdOp)
    requires IdsAccounted(s)
    ensures IdsAccounted(AfterIdOp(s, op))
    ensures AfterIdOp(s, op).cap <= s.cap || AfterIdOp(s, op).cap == InHand(AfterIdOp(s, op))
  {
    match op
    case AskOp =>
      if s.holes == [] {
        CountBelow(s.live + s.outstanding, s.cap);
        CountBelow(s.live + s.outstanding + {s.cap}, s.cap + 1);
      } else {
        FillHole(s.live, s.outstanding, s.holes, s.cap);
      }
    case StoreOp(_) =>
    case DropOp(id) =>
      if id != ROOT_ID && id in s.live {
        if id + 1 == s.cap {
          ShrinkCap(s.live, s.outstanding, s.holes, s.cap);
        } else {
          OpenHole(s.live, s.outstanding, s.holes, s.cap, id);
        }
      }
  }

  /** Over any run of a new storage the ids stay below the greatest number of them that was in hand at one time. */
  lemma {:induction false} CapIsPeak(ops: seq<IdOp>) returns (i: nat)
    ensures i <= |ops|
    ensures var start := IdState({ROOT_ID}, {}, [], 1);
            IdsAccounted(AfterIdOps(start, ops)) && AfterIdOps(start, ops).cap <= InHand(AfterIdOps(start, ops[..i]))
    decreases |ops|
  {
    var start := IdState({ROOT_ID}, {}, [], 1);
    if ops == [] {
      i := 0;
    } else {
      var n := |ops| - 1;
      i := CapIsPeak(ops[..n]);
      CapStep(AfterIdOps(start, ops[..n]), ops[n]);
      assert ops[..n][..i] == ops[..i];
      if AfterIdOps(start, ops).cap > AfterIdOps(start, ops[..n]).cap {
        i := |ops|;
        assert ops[..i] == ops;
      }
    }
  }
}
