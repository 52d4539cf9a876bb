/** Trees and stores whose nodes were given other ids. */
module Renaming {
  import opened Shapes
  import opened Links

  type Renumbering = map<nat, nat>

  ghost function NewIdOf(s: Renumbering, id: nat): nat {
    if id in s then s[id] else id
  }

  ghost function NewIds(s: Renumbering, ids: seq<nat>): (r: seq<nat>)
    ensures |r| == |ids|
  {
    seq(|ids|, i requires 0 <= i < |ids| => NewIdOf(s, ids[i]))
  }

  ghost function RenamedNode<E>(s: Renumbering, n: Node<E>): Node<E> {
    Node(NewIdOf(s, n.id), n.values, NewIds(s, n.children), n.leaf)
  }

  ghost function RenamedShape<E>(s: Renumbering, t: Shape<E>): Shape<E> {
    Shape(NewIdOf(s, t.id), t.values, seq(|t.kids|, i requires 0 <= i < |t.kids| => RenamedShape(s, t.kids[i])))
  }

  ghost predicate Injective(s: Renumbering) {
    forall x, y :: x in s && y in s && s[x] == s[y] ==> x == y
  }

  /** after holds the nodes of before under their new ids, links included, and nothing else. */
  ghost predicate Renamed<E>(before: Store<E>, s: Renumbering, after: Store<E>) {
    && s.Keys == before.Keys && Injective(s)
    && (forall id :: id in before ==> s[id] in after && after[s[id]] == RenamedNode(s, before[id]))
    && (forall id :: id in after ==> Source(s, id))
  }

  ghost predicate Source(s: Renumbering, id: nat) {
    exists x :: x in s && s[x] == id
  }

  // ---- what renaming keeps ----

  lemma RenamedClosed<E>(before: Store<E>, s: Renumbering, after: Store<E>, root: nat)
    requires Renamed(before, s, after) && Closed(before, root) && Keyed(before)
    ensures Closed(after, s[root]) && Keyed(after)
  {
    forall id | id in after
      ensures after[id].id == id
      ensures forall p :: 0 <= p < |after[id].children| ==>
                after[id].children[p] in after && after[id].children[p] != s[root]
    {
      assert Source(s, id);
      var x :| x in s && s[x] == id;
      assert after[id] == RenamedNode(s, before[x]);
      forall p | 0 <= p < |after[id].children|
        ensures after[id].children[p] in after && after[id].children[p] != s[root]
      {
        var c := before[x].children[p];
        assert c in before && c != root;
        assert after[id].children[p] == s[c];
      }
    }
  }

  lemma RenamedSingleParent<E>(before: Store<E>, s: Renumbering, after: Store<E>, root: nat)
    requires Renamed(before, s, after) && Closed(before, root) && SingleParent(before)
    ensures SingleParent(after)
  {
    forall i, p, j, q | i in after && 0 <= p < |after[i].children| && j in after && 0 <= q < |after[j].children|
                        && after[i].children[p] == after[j].children[q]
      ensures i == j && p == q
    {
      assert Source(s, i) && Source(s, j);
      var x :| x in s && s[x] == i;
      var y :| y in s && s[y] == j;
      var c, d := before[x].children[p], before[y].children[q];
      assert c in before && d in before;
      assert s[c] == after[i].children[p] == after[j].children[q] == s[d];
      assert c == d;
    }
  }

  lemma IdentityRenames<E>(nodes: Store<E>, root: nat) returns (s: Renumbering)
    requires Keyed(nodes) && Closed(nodes, root)
    ensures Renamed(nodes, s, nodes) && s[root] == root
  {
    s := map id | id in nodes :: id;
    forall id | id in nodes ensures nodes[id] == RenamedNode(s, nodes[id]) {
      assert nodes[id].children == NewIds(s, nodes[id].children);
    }
    forall id | id in nodes ensures Source(s, id) {
      assert s[id] == id;
    }
  }

  // ---- one move ----

  /** The store after node c has been moved to the unused id f, and its parent r has been told at place p. */
  ghost function MovedIn<E>(nodes: Store<E>, r: nat, p: nat, f: nat): Store<E>
    requires r in nodes && p < |nodes[r].children| && nodes[r].children[p] in nodes
  {
    var c, n := nodes[r].children[p], nodes[r];
    (nodes - {c})[f := nodes[c].(id := f)][r := Node(r, n.values, n.children[p := f], n.leaf)]
  }

  ghost function Redirected(s: Renumbering, c: nat, f: nat): Renumbering {
    map id | id in s :: if s[id] == c then f else s[id]
  }

  lemma NewIdsRedirected(s: Renumbering, ids: seq<nat>, c: nat, f: nat)
    requires (forall i :: 0 <= i < |ids| ==> ids[i] in s && s[ids[i]] != c)
    ensures NewIds(Redirected(s, c, f), ids) == NewIds(s, ids)
  {
  }

  lemma MoveRenames<E>(before: Store<E>, s: Renumbering, nodes: Store<E>, root: nat, r: nat, p: nat, f: nat)
    requires Renamed(before, s, nodes) && Closed(before, root) && Keyed(before) && SingleParent(before)
             && s[root] == root
    requires r in nodes && p < |nodes[r].children| && f !in nodes
    ensures nodes[r].children[p] in nodes && nodes[r].children[p] != root
    ensures nodes[r].children[p] != r ==>
      var c := nodes[r].children[p];
      Renamed(before, Redirected(s, c, f), MovedIn(nodes, r, p, f)) && Redirected(s, c, f)[root] == root
  {
    hide RenamedNode, MovedIn, Redirected, Injective, SingleParent;
    RenamedClosed(before, s, nodes, root);
    RenamedSingleParent(before, s, nodes, root);
    var c := nodes[r].children[p];
    if c != r {
      var s', after := Redirected(s, c, f), MovedIn(nodes, r, p, f);
      RedirectedInjective(s, nodes, c, f, root);
      forall x | x in before ensures s'[x] in after && after[s'[x]] == RenamedNode(s', before[x]) {
        MovedNode(before, s, nodes, root, r, p, f, x);
      }
      forall id | id in after ensures Source(s', id) {
        MovedSource(s, nodes, r, p, f, id);
      }
    }
  }

  lemma RedirectedInjective<E>(s: Renumbering, nodes: Store<E>, c: nat, f: nat, root: nat)
    requires Injective(s) && f !in nodes && (forall x :: x in s ==> s[x] in nodes)
    requires root in s && s[root] != c
    ensures var s' := Redirected(s, c, f); Injective(s') && s'.Keys == s.Keys && s'[root] == s[root]
  {
    var s' := Redirected(s, c, f);
    forall x, y | x in s' && y in s' && s'[x] == s'[y] ensures x == y {
      assert s[x] in nodes && s[y] in nodes;
    }
  }

  lemma MovedSource<E>(s: Renumbering, nodes: Store<E>, r: nat, p: nat, f: nat, id: nat)
    requires forall y :: y in nodes ==> Source(s, y)
    requires r in nodes && p < |nodes[r].children| && nodes[r].children[p] in nodes && nodes[r].children[p] != r
    requires id in MovedIn(nodes, r, p, f) && f !in nodes
    ensures Source(Redirected(s, nodes[r].children[p], f), id)
  {
    var c := nodes[r].children[p];
    var y := if id == f then c else id;
    assert Source(s, y);
    var x :| x in s && s[x] == y;
    assert Redirected(s, c, f)[x] == id;
  }

  lemma MovedNode<E>(before: Store<E>, s: Renumbering, nodes: Store<E>, root: nat, r: nat, p: nat, f: nat, x: nat)
    requires Renamed(before, s, nodes) && Closed(before, root) && Closed(nodes, root) && Keyed(before)
             && SingleParent(nodes)
    requires r in nodes && p < |nodes[r].children| && f !in nodes && nodes[r].children[p] != r && x in before
    ensures var s' := Redirected(s, nodes[r].children[p], f);
            var after := MovedIn(nodes, r, p, f);
            s'[x] in after && after[s'[x]] == RenamedNode(s', before[x])
  {
    hide MovedIn, Redirected, RenamedNode, SingleParent;
    var n, c := before[x], nodes[r].children[p];
    assert Covers(s, n);
    RenamedParts(s, n);
    MovedChildren(s, nodes, r, p, f, n);
    assert x in Redirected(s, c, f).Keys by { RedirectedAt(s, c, f, x); }
    RedirectedAt(s, c, f, x);
    MovedAt(nodes, r, p, f, s[x]);
    RenamedParts(Redirected(s, c, f), n);
  }

  lemma RenamedParts<E>(s: Renumbering, n: Node<E>)
    ensures RenamedNode(s, n) == Node(NewIdOf(s, n.id), n.values, NewIds(s, n.children), n.leaf)
  {
  }

  lemma RedirectedAt(s: Renumbering, c: nat, f: nat, x: nat)
    requires x in s
    ensures x in Redirected(s, c, f) && Redirected(s, c, f)[x] == if s[x] == c then f else s[x]
  {
  }

  lemma MovedAt<E>(nodes: Store<E>, r: nat, p: nat, f: nat, y: nat)
    requires r in nodes && p < |nodes[r].children| && nodes[r].children[p] in nodes && nodes[r].children[p] != r
    requires y in nodes && f !in nodes && nodes[y].id == y
    ensures var c, after := nodes[r].children[p], MovedIn(nodes, r, p, f);
            if y == c then f in after && after[f] == nodes[c].(id := f)
            else if y == r then y in after && after[y] == nodes[y].(children := nodes[y].children[p := f])
            else y in after && after[y] == nodes[y]
  {
  }

  /** What becomes of the links of the node that n became. */
  lemma MovedChildren<E>(s: Renumbering, nodes: Store<E>, r: nat, p: nat, f: nat, n: Node<E>)
    requires SingleParent(nodes) && r in nodes && p < |nodes[r].children| && Covers(s, n) && s[n.id] in nodes
    requires nodes[s[n.id]].children == NewIds(s, n.children)
    ensures NewIds(Redirected(s, nodes[r].children[p], f), n.children)
         == if s[n.id] == r then nodes[r].children[p := f] else nodes[s[n.id]].children
  {
    var c, y, ids := nodes[r].children[p], s[n.id], n.children;
    assert forall i :: 0 <= i < |ids| ==> ids[i] in s && nodes[y].children[i] == s[ids[i]];
    if y == r {
      forall i | 0 <= i < |ids| ensures NewIds(Redirected(s, c, f), ids)[i] == nodes[r].children[p := f][i] {
        assert i != p ==> nodes[r].children[i] != c;
      }
    } else {
      forall i | 0 <= i < |ids| ensures s[ids[i]] != c {
        assert nodes[y].children[i] == s[ids[i]];
      }
      NewIdsRedirected(s, ids, c, f);
    }
  }

  // ---- shapes ----

  /** The same entries in the same places: only ids differ. */
  lemma {:induction false} RenamedKeeps<E>(s: Renumbering, t: Shape<E>, h: nat, a: nat, b: nat)
    ensures InOrder(RenamedShape(s, t)) == InOrder(t)
    ensures Uniform(RenamedShape(s, t), h) <==> Uniform(t, h)
    ensures Bounded(RenamedShape(s, t), a, b) <==> Bounded(t, a, b)
    decreases t
  {
    var t' := RenamedShape(s, t);
    forall i | 0 <= i < |t.kids|
      ensures t'.kids[i] == RenamedShape(s, t.kids[i]) && InOrder(t'.kids[i]) == InOrder(t.kids[i])
      ensures h > 0 ==> (Uniform(t'.kids[i], h - 1) <==> Uniform(t.kids[i], h - 1))
      ensures Bounded(t'.kids[i], a, b) <==> Bounded(t.kids[i], a, b)
      ensures t'.kids[i].values == t.kids[i].values
    {
      RenamedKeeps(s, t.kids[i], if h > 0 then h - 1 else 0, a, b);
    }
    WeaveSame(t.values, t'.kids, t.kids);
  }

  lemma {:induction false} WeaveSame<E>(vs: seq<E>, x: seq<Shape<E>>, y: seq<Shape<E>>)
    requires |x| == |y| && forall i :: 0 <= i < |x| ==> InOrder(x[i]) == InOrder(y[i])
    ensures Weave(vs, x) == Weave(vs, y)
  {
    if x != [] && vs != [] {
      WeaveSame(vs[1..], x[1..], y[1..]);
    }
  }

  // ---- holding the renamed tree ----

  ghost predicate Covers<E>(s: Renumbering, n: Node<E>) {
    n.id in s && forall i :: 0 <= i < |n.children| ==> n.children[i] in s
  }

  lemma RenamedNodeInjective<E>(s: Renumbering, m: Node<E>, n: Node<E>)
    requires Injective(s) && Covers(s, m) && Covers(s, n)
    ensures RenamedNode(s, m) == RenamedNode(s, n) <==> m == n
  {
    if RenamedNode(s, m) == RenamedNode(s, n) {
      forall i | 0 <= i < |m.children| ensures m.children[i] == n.children[i] {
        assert NewIds(s, m.children)[i] == NewIds(s, n.children)[i];
      }
    }
  }

  ghost function RenamedShapes<E>(s: Renumbering, ts: seq<Shape<E>>): seq<Shape<E>> {
    seq(|ts|, i requires 0 <= i < |ts| => RenamedShape(s, ts[i]))
  }

  lemma RenamedRoot<E>(s: Renumbering, t: Shape<E>)
    ensures RenamedShape(s, t).id == NewIdOf(s, t.id) && RenamedShape(s, t).values == t.values
  {
  }

  lemma ViewRenamed<E>(s: Renumbering, t: Shape<E>)
    ensures View(RenamedShape(s, t)) == RenamedNode(s, View(t))
  {
    var t' := RenamedShape(s, t);
    forall i | 0 <= i < |t.kids| ensures Ids(t'.kids)[i] == NewIds(s, Ids(t.kids))[i] {
      RenamedRoot(s, t.kids[i]);
    }
    assert Ids(t'.kids) == NewIds(s, Ids(t.kids));
  }

  /** Each node occurs under its new id as often as before. */
  lemma {:induction false} BagRenamed<E>(s: Renumbering, t: Shape<E>, n: Node<E>)
    requires Injective(s) && Covers(s, n) && forall m :: m in Bag(t) ==> Covers(s, m)
    ensures Bag(RenamedShape(s, t))[RenamedNode(s, n)] == Bag(t)[n]
    decreases t, 1
  {
    hide Covers, Injective;
    ViewRenamed(s, t);
    assert View(t) in Bag(t);
    RenamedNodeInjective(s, View(t), n);
    forall m | m in Bags(t.kids) ensures Covers(s, m) {
      assert m in Bag(t);
    }
    BagsRenamed(s, t.kids, n);
    assert RenamedShape(s, t).kids == RenamedShapes(s, t.kids);
  }

  lemma {:induction false} BagsRenamed<E>(s: Renumbering, ts: seq<Shape<E>>, n: Node<E>)
    requires Injective(s) && Covers(s, n) && forall m :: m in Bags(ts) ==> Covers(s, m)
    ensures Bags(RenamedShapes(s, ts))[RenamedNode(s, n)] == Bags(ts)[n]
    decreases ts, 0
  {
    hide Covers, Injective, RenamedNode, RenamedShape;
    if ts != [] {
      forall m | m in Bag(ts[0]) || m in Bags(ts[1..]) ensures Covers(s, m) {
        assert m in Bags(ts);
      }
      BagRenamed(s, ts[0], n);
      BagsRenamed(s, ts[1..], n);
      assert RenamedShapes(s, ts)[1..] == RenamedShapes(s, ts[1..]);
    }
  }

  /** A node of the renamed tree is a renamed node. */
  lemma {:induction false} BagSource<E>(s: Renumbering, t: Shape<E>, m: Node<E>) returns (n: Node<E>)
    requires m in Bag(RenamedShape(s, t))
    ensures n in Bag(t) && m == RenamedNode(s, n)
    decreases t, 1
  {
    ViewRenamed(s, t);
    n := View(t);
    if m != View(RenamedShape(s, t)) {
      assert RenamedShape(s, t).kids == RenamedShapes(s, t.kids);
      assert m in Bags(RenamedShapes(s, t.kids));
      n := BagsSource(s, t.kids, m);
    }
  }

  lemma {:induction false} BagsSource<E>(s: Renumbering, ts: seq<Shape<E>>, m: Node<E>) returns (n: Node<E>)
    requires m in Bags(RenamedShapes(s, ts))
    ensures n in Bags(ts) && m == RenamedNode(s, n)
    decreases ts, 0
  {
    hide RenamedNode, RenamedShape;
    var us := RenamedShapes(s, ts);
    assert us[1..] == RenamedShapes(s, ts[1..]);
    if m in Bag(us[0]) {
      n := BagSource(s, ts[0], m);
    } else {
      n := BagsSource(s, ts[1..], m);
    }
  }

  /** A renamed store holds exactly the renamed tree. */
  lemma HoldsRenamed<E>(before: Store<E>, s: Renumbering, after: Store<E>, t: Shape<E>)
    requires Renamed(before, s, after) && Holds(before, t)
    ensures Holds(after, RenamedShape(s, t))
  {
    hide Renamed, Injective, RenamedShape, RenamedNode;
    HoldsClosed(before, t);
    RenamedClosed(before, s, after, t.id);
    var t' := RenamedShape(s, t);
    BagCovered(before, s, after, t);
    forall m ensures multiset(after.Values)[m] == Bag(t')[m] {
      if m in after.Values {
        AfterOnce(before, s, after, t, m);
      } else if m in Bag(t') {
        var n := BagSource(s, t, m);
        AfterHas(before, s, after, n);
      }
    }
    SameCounts(multiset(after.Values), Bag(t'));
  }

  lemma SameCounts<T>(x: multiset<T>, y: multiset<T>)
    requires forall m :: x[m] == y[m]
    ensures x == y
  {
    assert forall m :: m in x ==> m in y && x[m] == y[m];
    assert x <= y && y <= x;
  }

  lemma BagCovered<E>(before: Store<E>, s: Renumbering, after: Store<E>, t: Shape<E>)
    requires Renamed(before, s, after) && Holds(before, t)
    ensures Injective(s) && forall m :: m in Bag(t) ==> Covers(s, m) && m in before.Values
  {
    HoldsClosed(before, t);
    forall m | m in Bag(t) ensures Covers(s, m) && m in before.Values {
      assert m in multiset(before.Values);
      StoredOnce(before, m);
    }
  }

  lemma AfterHas<E>(before: Store<E>, s: Renumbering, after: Store<E>, n: Node<E>)
    requires Renamed(before, s, after) && Keyed(before) && n in before.Values
    ensures RenamedNode(s, n) in after.Values
  {
    StoredOnce(before, n);
    assert after[s[n.id]] == RenamedNode(s, n);
  }

  lemma AfterOnce<E>(before: Store<E>, s: Renumbering, after: Store<E>, t: Shape<E>, m: Node<E>)
    requires Renamed(before, s, after) && Holds(before, t) && Keyed(after) && m in after.Values
    ensures Bag(RenamedShape(s, t))[m] == 1
  {
    hide RenamedShape, RenamedNode, Bag;
    assert Source(s, m.id);
    var x :| x in s && s[x] == m.id;
    var n := before[x];
    assert m == RenamedNode(s, n);
    assert n in before.Values && n in multiset(before.Values) && n in Bag(t);
    BagCovered(before, s, after, t);
    BagRenamed(s, t, n);
    assert multiset(before.Values)[n] == 1;
  }

  /** The renamed store spells out the renamed tree: the same depth, the same entries in the same order, and the
      same numbers of them in each node. */
  lemma SameTree<E>(before: Store<E>, s: Renumbering, after: Store<E>, t: Shape<E>, h: nat, a: nat, b: nat)
    requires Renamed(before, s, after) && Holds(before, t) && Uniform(t, h)
    ensures t.id in s
    ensures var u := Unfold(after, s[t.id], h);
            && u == RenamedShape(s, t) && Holds(after, u)
            && Uniform(u, h) && InOrder(u) == InOrder(t) && (Bounded(u, a, b) <==> Bounded(t, a, b))
  {
    HoldsClosed(before, t);
    HoldsRenamed(before, s, after, t);
    RenamedKeeps(s, t, h, a, b);
    RenamedRoot(s, t);
    UnfoldStored(after, RenamedShape(s, t), h);
  }

  // ---- counting ----

  lemma {:induction false} InjectiveValues(s: Renumbering)
    requires Injective(s)
    ensures |s.Values| == |s.Keys|
    decreases |s|
  {
    if s.Keys == {} {
      assert s.Values == {};
    } else {
      var x :| x in s;
      var rest := s - {x};
      InjectiveValues(rest);
      assert s.Keys == rest.Keys + {x};
      forall y ensures y in s.Values <==> y in rest.Values || y == s[x] {
        if y in rest.Values {
          var z :| z in rest && rest[z] == y;
          assert s[z] == y;
        }
        if y in s.Values && y != s[x] {
          var z :| z in s && s[z] == y;
          assert rest[z] == y;
        }
      }
      assert s.Values == rest.Values + {s[x]};
    }
  }

  lemma RenamedCount<E>(before: Store<E>, s: Renumbering, after: Store<E>)
    requires Renamed(before, s, after)
    ensures |after.Keys| == |before.Keys|
  {
    InjectiveValues(s);
    forall id ensures id in after.Keys <==> id in s.Values {
      if id in after {
        assert Source(s, id);
      }
    }
    assert after.Keys == s.Values;
  }

  lemma {:induction false} InitialSegment(ids: set<nat>, n: nat)
    requires forall id: nat :: id in ids <==> id < n
    ensures |ids| == n
    decreases n
  {
    if n == 0 {
      assert ids == {};
    } else {
      InitialSegment(ids - {n - 1}, n - 1);
    }
  }
}
