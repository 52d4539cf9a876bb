/** Nodes as the storage keeps them, and the inductive tree that a set of linked nodes spells out. */
module Shapes {

  /** A stored node: children are referred to by id. */
  datatype Node<E> = Node(id: nat, values: seq<E>, children: seq<nat>, leaf: bool)

  /** The tree below a node, with the children themselves in place of their ids. */
  datatype Shape<E> = Shape(id: nat, values: seq<E>, kids: seq<Shape<E>>)

  type Store<E> = map<nat, Node<E>>

  const ROOT_ID: nat := 0

  ghost function Ids<E>(ts: seq<Shape<E>>): seq<nat> {
    seq(|ts|, i requires 0 <= i < |ts| => ts[i].id)
  }

  /** The stored node at the root of t. */
  ghost function View<E>(t: Shape<E>): Node<E> {
    Node(t.id, t.values, Ids(t.kids), t.kids == [])
  }

  /** Every stored node of t, once for each place where it occurs. */
  ghost function Bag<E>(t: Shape<E>): multiset<Node<E>>
    decreases t, 1
  {
    multiset{View(t)} + Bags(t.kids)
  }

  ghost function Bags<E>(ts: seq<Shape<E>>): multiset<Node<E>>
    decreases ts, 0
  {
    if ts == [] then multiset{} else Bag(ts[0]) + Bags(ts[1..])
  }

  /** All entries of t from left to right. */
  ghost function InOrder<E>(t: Shape<E>): seq<E>
    decreases t, 1
  {
    Weave(t.values, t.kids)
  }

  /** Alternates subtrees and separating values; without subtrees only the values. */
  ghost function Weave<E>(vs: seq<E>, ks: seq<Shape<E>>): seq<E>
    decreases ks, 0
  {
    if ks == [] then vs
    else if vs == [] then InOrder(ks[0])
    else InOrder(ks[0]) + [vs[0]] + Weave(vs[1..], ks[1..])
  }

  /** Each subtree followed by its value. */
  ghost function LeftWeave<E>(vs: seq<E>, ks: seq<Shape<E>>): seq<E>
    requires |vs| == |ks|
  {
    if ks == [] then [] else InOrder(ks[0]) + [vs[0]] + LeftWeave(vs[1..], ks[1..])
  }

  /** Each value followed by its subtree. */
  ghost function RightWeave<E>(vs: seq<E>, ks: seq<Shape<E>>): seq<E>
    requires |vs| == |ks|
  {
    if ks == [] then [] else [vs[0]] + InOrder(ks[0]) + RightWeave(vs[1..], ks[1..])
  }

  /** All leaves of t lie at depth h, and a node with n values and children has n + 1 of them. */
  ghost predicate Uniform<E>(t: Shape<E>, h: nat)
    decreases h
  {
    && h > 0
    && if h == 1 then t.kids == []
       else |t.kids| == |t.values| + 1 && forall i :: 0 <= i < |t.kids| ==> Uniform(t.kids[i], h - 1)
  }

  /** No node of t holds more than b - 1 values and none below its root fewer than a - 1. */
  ghost predicate Bounded<E>(t: Shape<E>, a: nat, b: nat) {
    && |t.values| < b
    && forall i :: 0 <= i < |t.kids| ==> Bounded(t.kids[i], a, b) && a <= |t.kids[i].values| + 1
  }

  /** The tree that the stored nodes spell out below id, cut at depth h. */
  ghost function Unfold<E>(nodes: Store<E>, id: nat, h: nat): Shape<E>
    decreases h
  {
    if h == 0 || id !in nodes then Shape(id, [], [])
    else
      var ch := nodes[id].children;
      Shape(id, nodes[id].values, seq(|ch|, i requires 0 <= i < |ch| => Unfold(nodes, ch[i], h - 1)))
  }

  ghost predicate Keyed<E>(nodes: Store<E>) {
    forall id :: id in nodes ==> nodes[id].id == id
  }

  /** The store holds the nodes of t, each exactly once, and nothing else. */
  ghost predicate Holds<E>(nodes: Store<E>, t: Shape<E>) {
    Keyed(nodes) && multiset(nodes.Values) == Bag(t)
  }

  // ---- bags ----

  lemma {:induction false} BagsConcat<E>(x: seq<Shape<E>>, y: seq<Shape<E>>)
    ensures Bags(x + y) == Bags(x) + Bags(y)
  {
    if x == [] {
      assert x + y == y;
    } else {
      assert (x + y)[1..] == x[1..] + y;
      BagsConcat(x[1..], y);
    }
  }

  lemma {:induction false} BagOfKid<E>(ts: seq<Shape<E>>, i: nat)
    requires i < |ts|
    ensures Bag(ts[i]) <= Bags(ts)
    ensures View(ts[i]) in Bags(ts)
  {
    assert ts == ts[..i] + ts[i..];
    BagsConcat(ts[..i], ts[i..]);
    assert ts[i..][0] == ts[i];
    assert View(ts[i]) in Bag(ts[i]);
  }

  lemma BagOfPair<E>(l: seq<Shape<E>>, x: Shape<E>, y: Shape<E>, r: seq<Shape<E>>)
    ensures Bags(l + [x, y] + r) == Bags(l) + Bag(x) + Bag(y) + Bags(r)
  {
    BagsConcat(l + [x, y], r);
    BagsConcat(l, [x, y]);
    assert [x, y][1..] == [y];
    assert Bags([y]) == Bag(y);
  }

  lemma BagOfOne<E>(l: seq<Shape<E>>, x: Shape<E>, r: seq<Shape<E>>)
    ensures Bags(l + [x] + r) == Bags(l) + Bag(x) + Bags(r)
  {
    BagsConcat(l + [x], r);
    BagsConcat(l, [x]);
    assert Bags([x]) == Bag(x);
  }

  // ---- stores ----

  lemma StoredOnce<E>(nodes: Store<E>, n: Node<E>)
    requires Keyed(nodes) && n in nodes.Values
    ensures n.id in nodes && nodes[n.id] == n
  {
  }

  lemma ValuesAfterWrite<E>(nodes: Store<E>, n: Node<E>)
    requires Keyed(nodes)
    ensures Keyed(nodes[n.id := n])
    ensures multiset(nodes[n.id := n].Values) ==
            (if n.id in nodes then multiset(nodes.Values) - multiset{nodes[n.id]} else multiset(nodes.Values))
            + multiset{n}
  {
    var after := nodes[n.id := n];
    var kept := if n.id in nodes then nodes.Values - {nodes[n.id]} else nodes.Values;
    forall m ensures m in after.Values <==> m in kept || m == n {
      if m in kept {
        assert after[m.id] == m;
      }
      assert after[n.id] == n;
    }
    assert after.Values == kept + {n};
    assert n !in kept;
  }

  lemma ValuesAfterRemoval<E>(nodes: Store<E>, id: nat)
    requires Keyed(nodes) && id in nodes
    ensures Keyed(nodes - {id})
    ensures multiset((nodes - {id}).Values) == multiset(nodes.Values) - multiset{nodes[id]}
  {
    var after := nodes - {id};
    forall m ensures m in after.Values <==> m in nodes.Values && m != nodes[id] {
      if m in nodes.Values && m != nodes[id] {
        assert after[m.id] == m;
      }
    }
    assert after.Values == nodes.Values - {nodes[id]};
  }

  /** A store that holds the nodes of a uniform tree spells out that tree. */
  lemma {:induction false} UnfoldStored<E>(nodes: Store<E>, t: Shape<E>, h: nat)
    requires Keyed(nodes) && Bag(t) <= multiset(nodes.Values) && Uniform(t, h)
    ensures Unfold(nodes, t.id, h) == t
    decreases h
  {
    assert View(t) in Bag(t);
    StoredOnce(nodes, View(t));
    forall i | 0 <= i < |t.kids| ensures Unfold(nodes, t.kids[i].id, h - 1) == t.kids[i] {
      BagOfKid(t.kids, i);
      UnfoldStored(nodes, t.kids[i], h - 1);
    }
    var u := Unfold(nodes, t.id, h);
    assert u.kids == t.kids;
  }

  // ---- entries ----

  lemma {:induction false} WeaveSplit<E>(v1: seq<E>, k1: seq<Shape<E>>, m: E, v2: seq<E>, k2: seq<Shape<E>>)
    requires (k1 == [] && k2 == []) || (|k1| == |v1| + 1 && |k2| == |v2| + 1)
    ensures Weave(v1 + [m] + v2, k1 + k2) == Weave(v1, k1) + [m] + Weave(v2, k2)
  {
    var vs, ks := v1 + [m] + v2, k1 + k2;
    if k1 == [] {
      assert ks == [];
    } else if |k1| == 1 {
      assert vs[1..] == v2 && ks[1..] == k2;
    } else {
      WeaveSplit(v1[1..], k1[1..], m, v2, k2);
      assert vs[1..] == v1[1..] + [m] + v2 && ks[1..] == k1[1..] + k2;
    }
  }

  lemma {:induction false} WeaveRight<E>(vs: seq<E>, t: Shape<E>, r: seq<Shape<E>>)
    requires |vs| == |r|
    ensures Weave(vs, [t] + r) == InOrder(t) + RightWeave(vs, r)
  {
    if r != [] {
      assert ([t] + r)[1..] == [r[0]] + r[1..];
      WeaveRight(vs[1..], r[0], r[1..]);
    }
  }

  lemma {:induction false} WeaveAround<E>(vl: seq<E>, l: seq<Shape<E>>, t: Shape<E>, vr: seq<E>, r: seq<Shape<E>>)
    requires |vl| == |l| && |vr| == |r|
    ensures Weave(vl + vr, l + [t] + r) == LeftWeave(vl, l) + InOrder(t) + RightWeave(vr, r)
  {
    var vs, ks := vl + vr, l + [t] + r;
    if l == [] {
      assert vs == vr && ks == [t] + r;
      WeaveRight(vr, t, r);
    } else {
      assert vs[1..] == vl[1..] + vr && ks[1..] == l[1..] + [t] + r;
      WeaveAround(vl[1..], l[1..], t, vr, r);
    }
  }

  lemma Assoc<E>(w: seq<E>, x: seq<E>, y: seq<E>, z: seq<E>)
    ensures w + (x + y + z) == w + x + y + z
  {
  }

  lemma RightWeaveStep<E>(m: E, vr: seq<E>, y: Shape<E>, r: seq<Shape<E>>)
    requires |vr| == |r|
    ensures RightWeave([m] + vr, [y] + r) == [m] + InOrder(y) + RightWeave(vr, r)
  {
    var v, k := [m] + vr, [y] + r;
    assert v[1..] == vr && k[1..] == r;
  }

  lemma WeavePair<E>(vl: seq<E>, l: seq<Shape<E>>, x: Shape<E>, m: E, y: Shape<E>, vr: seq<E>, r: seq<Shape<E>>)
    requires |vl| == |l| && |vr| == |r|
    ensures Weave(vl + [m] + vr, l + [x, y] + r)
         == LeftWeave(vl, l) + InOrder(x) + [m] + InOrder(y) + RightWeave(vr, r)
  {
    var vs, ks := vl + [m] + vr, l + [x, y] + r;
    assert vs == vl + ([m] + vr);
    assert ks == l + [x] + ([y] + r);
    WeaveAround(vl, l, x, [m] + vr, [y] + r);
    RightWeaveStep(m, vr, y, r);
    Assoc(LeftWeave(vl, l) + InOrder(x), [m], InOrder(y), RightWeave(vr, r));
  }
}
