/** Trees and stores whose entries were encoded, as a file holds them. */
module Encodings {
  import opened Blueprints
  import opened RoundTrip
  import opened Shapes
  import opened Renaming

  /** Every entry is encoded to a value that fits the layout, and decoded again. */
  ghost predicate Coding<E(!new)>(bp: Blueprint, encode: E -> Value, decode: Value -> E) {
    forall e: E :: Codes(bp, encode(e)) && decode(encode(e)) == e
  }

  ghost predicate Codes(bp: Blueprint, v: Value) {
    Sound(bp) && Typed(bp, v) && Exact(bp, v)
  }

  /** No two entries are encoded alike. */
  ghost predicate Distinguishes<E(!new)>(encode: E -> Value) {
    forall x: E, y: E :: encode(x) == encode(y) ==> x == y
  }

  lemma CodingDistinguishes<E(!new)>(bp: Blueprint, encode: E -> Value, decode: Value -> E)
    requires Coding(bp, encode, decode)
    ensures Distinguishes(encode)
  {
    forall x: E, y: E | encode(x) == encode(y) ensures x == y {
      assert decode(encode(x)) == x && decode(encode(y)) == y;
    }
  }

  function Mapped<A, B>(f: A -> B, s: seq<A>): (r: seq<B>)
    ensures |r| == |s| && forall i :: 0 <= i < |s| ==> r[i] == f(s[i])
  {
    seq(|s|, i requires 0 <= i < |s| => f(s[i]))
  }

  function EncodedNode<E>(encode: E -> Value, n: Node<E>): Node<Value> {
    Node(n.id, Mapped(encode, n.values), n.children, n.leaf)
  }

  /** The file holds the encoded nodes. */
  ghost predicate Images<E>(nodes: Store<E>, encode: E -> Value, stored: Store<Value>) {
    nodes.Keys == stored.Keys && forall id :: id in nodes ==> stored[id] == EncodedNode(encode, nodes[id])
  }

  lemma ImagesWritten<E>(nodes: Store<E>, encode: E -> Value, stored: Store<Value>, n: Node<E>)
    requires Images(nodes, encode, stored)
    ensures Images(nodes[n.id := n], encode, stored[n.id := EncodedNode(encode, n)])
  {
  }

  lemma ImagesKeys<E>(nodes: Store<E>, encode: E -> Value, stored: Store<Value>)
    requires Images(nodes, encode, stored)
    ensures nodes.Keys == stored.Keys
  {
  }

  lemma ImagesRemoved<E>(nodes: Store<E>, encode: E -> Value, stored: Store<Value>, id: nat)
    requires Images(nodes, encode, stored)
    ensures Images(nodes - {id}, encode, stored - {id})
  {
  }

  lemma EncodedId<E>(encode: E -> Value, n: Node<E>)
    ensures EncodedNode(encode, n).id == n.id
  {
  }

  lemma DecodedAgain<E(!new)>(bp: Blueprint, encode: E -> Value, decode: Value -> E, n: Node<E>)
    requires Coding(bp, encode, decode)
    ensures Mapped(decode, EncodedNode(encode, n).values) == n.values
  {
    hide Codes;
    var vs := EncodedNode(encode, n).values;
    forall i | 0 <= i < |n.values| ensures decode(vs[i]) == n.values[i] {
      assert vs[i] == encode(n.values[i]);
    }
  }

  lemma EncodedNodeInjective<E(!new)>(encode: E -> Value, m: Node<E>, n: Node<E>)
    requires Distinguishes(encode)
    ensures EncodedNode(encode, m) == EncodedNode(encode, n) <==> m == n
  {
    if EncodedNode(encode, m) == EncodedNode(encode, n) {
      var x, y := Mapped(encode, m.values), Mapped(encode, n.values);
      assert |m.values| == |x| == |y| == |n.values|;
      forall i | 0 <= i < |m.values| ensures m.values[i] == n.values[i] {
        assert x[i] == encode(m.values[i]) && y[i] == encode(n.values[i]);
      }
    }
  }

  // ---- shapes ----

  ghost function EncodedShape<E>(encode: E -> Value, t: Shape<E>): Shape<Value> {
    Shape(t.id, Mapped(encode, t.values),
          seq(|t.kids|, i requires 0 <= i < |t.kids| => EncodedShape(encode, t.kids[i])))
  }

  ghost function EncodedShapes<E>(encode: E -> Value, ts: seq<Shape<E>>): seq<Shape<Value>> {
    seq(|ts|, i requires 0 <= i < |ts| => EncodedShape(encode, ts[i]))
  }

  lemma EncodedRoot<E>(encode: E -> Value, t: Shape<E>)
    ensures EncodedShape(encode, t).id == t.id
  {
  }

  lemma ViewEncoded<E>(encode: E -> Value, t: Shape<E>)
    ensures View(EncodedShape(encode, t)) == EncodedNode(encode, View(t))
  {
    var t' := EncodedShape(encode, t);
    forall i | 0 <= i < |t.kids| ensures Ids(t'.kids)[i] == Ids(t.kids)[i] {
      EncodedRoot(encode, t.kids[i]);
    }
    assert Ids(t'.kids) == Ids(t.kids);
  }

  /** Each node occurs encoded as often as before. */
  lemma {:induction false} BagEncoded<E(!new)>(encode: E -> Value, t: Shape<E>, n: Node<E>)
    requires Distinguishes(encode)
    ensures Bag(EncodedShape(encode, t))[EncodedNode(encode, n)] == Bag(t)[n]
    decreases t, 1
  {
    hide Distinguishes;
    ViewEncoded(encode, t);
    EncodedNodeInjective(encode, View(t), n);
    BagsEncoded(encode, t.kids, n);
    assert EncodedShape(encode, t).kids == EncodedShapes(encode, t.kids);
  }

  lemma {:induction false} BagsEncoded<E(!new)>(encode: E -> Value, ts: seq<Shape<E>>, n: Node<E>)
    requires Distinguishes(encode)
    ensures Bags(EncodedShapes(encode, ts))[EncodedNode(encode, n)] == Bags(ts)[n]
    decreases ts, 0
  {
    hide Distinguishes, EncodedNode, EncodedShape;
    if ts != [] {
      BagEncoded(encode, ts[0], n);
      BagsEncoded(encode, ts[1..], n);
      assert EncodedShapes(encode, ts)[1..] == EncodedShapes(encode, ts[1..]);
    }
  }

  /** A node of the encoded tree is an encoded node. */
  lemma {:induction false} BagSourceEncoded<E>(encode: E -> Value, t: Shape<E>, m: Node<Value>) returns (n: Node<E>)
    requires m in Bag(EncodedShape(encode, t))
    ensures n in Bag(t) && m == EncodedNode(encode, n)
    decreases t, 1
  {
    ViewEncoded(encode, t);
    n := View(t);
    if m != View(EncodedShape(encode, t)) {
      assert EncodedShape(encode, t).kids == EncodedShapes(encode, t.kids);
      assert m in Bags(EncodedShapes(encode, t.kids));
      n := BagsSourceEncoded(encode, t.kids, m);
    }
  }

  lemma {:induction false} BagsSourceEncoded<E>(encode: E -> Value, ts: seq<Shape<E>>, m: Node<Value>)
      returns (n: Node<E>)
    requires m in Bags(EncodedShapes(encode, ts))
    ensures n in Bags(ts) && m == EncodedNode(encode, n)
    decreases ts, 0
  {
    hide EncodedNode, EncodedShape;
    var us := EncodedShapes(encode, ts);
    assert us[1..] == EncodedShapes(encode, ts[1..]);
    if m in Bag(us[0]) {
      n := BagSourceEncoded(encode, ts[0], m);
    } else {
      n := BagsSourceEncoded(encode, ts[1..], m);
    }
  }

  lemma StoredEncoded<E>(nodes: Store<E>, encode: E -> Value, stored: Store<Value>, t: Shape<E>, m: Node<Value>)
    requires Images(nodes, encode, stored) && Holds(nodes, t) && m in Bag(EncodedShape(encode, t))
    ensures m in stored.Values
  {
    hide EncodedShape;
    var n := BagSourceEncoded(encode, t, m);
    assert n in multiset(nodes.Values);
    StoredOnce(nodes, n);
    assert stored[n.id] == m;
  }

  /** A file that holds the encoded nodes holds the encoded tree. */
  lemma HoldsEncoded<E(!new)>(nodes: Store<E>, encode: E -> Value, stored: Store<Value>, t: Shape<E>)
    requires Images(nodes, encode, stored) && Distinguishes(encode) && Holds(nodes, t)
    ensures Holds(stored, EncodedShape(encode, t))
  {
    hide EncodedShape, Distinguishes;
    var t' := EncodedShape(encode, t);
    forall id | id in stored ensures stored[id].id == id {
      EncodedId(encode, nodes[id]);
    }
    forall m ensures multiset(stored.Values)[m] == Bag(t')[m] {
      if m in stored.Values {
        var n := nodes[m.id];
        assert m == EncodedNode(encode, n) && n in nodes.Values;
        assert multiset(nodes.Values)[n] == 1 == Bag(t)[n];
        BagEncoded(encode, t, n);
      } else if m in Bag(t') {
        StoredEncoded(nodes, encode, stored, t, m);
      }
    }
    SameCounts(multiset(stored.Values), Bag(t'));
  }

  // ---- renaming encoded nodes ----

  /** The store that a renamed file stands for. */
  ghost function RenamedStore<E>(nodes: Store<E>, s: Renumbering, ids: set<nat>): Store<E>
    requires s.Keys == nodes.Keys && forall id :: id in ids ==> Source(s, id)
  {
    map id | id in ids :: assert Source(s, id); var x :| x in s && s[x] == id; RenamedNode(s, nodes[x])
  }

  /** Renaming the encoded nodes is renaming the nodes. */
  lemma RenamedImages<E>(nodes: Store<E>, encode: E -> Value, stored: Store<Value>, s: Renumbering, after: Store<Value>)
    requires Images(nodes, encode, stored) && Renamed(stored, s, after)
    ensures var nodes' := RenamedStore(nodes, s, after.Keys);
            Renamed(nodes, s, nodes') && Images(nodes', encode, after)
  {
    var nodes' := RenamedStore(nodes, s, after.Keys);
    forall id | id in nodes ensures s[id] in nodes' && nodes'[s[id]] == RenamedNode(s, nodes[id]) {
      assert after[s[id]] == RenamedNode(s, stored[id]);
    }
    forall id | id in nodes' ensures after[id] == EncodedNode(encode, nodes'[id]) {
      assert Source(s, id);
      var x :| x in s && s[x] == id;
      assert after[s[x]] == RenamedNode(s, stored[x]) && stored[x] == EncodedNode(encode, nodes[x]);
    }
  }
}
