/** What holding exactly the nodes of one tree means for the links between them: every stored id is reached
    from the root, every link leads to a stored node, and every node but the root has one parent. */
module Links {
  import opened Shapes

  /** The ids of t, and the ids that its nodes list as children; once for each occurrence. */
  ghost function IdBag<E>(t: Shape<E>): multiset<nat>
    decreases t, 1
  {
    multiset{t.id} + IdBags(t.kids)
  }

  ghost function IdBags<E>(ts: seq<Shape<E>>): multiset<nat>
    decreases ts, 0
  {
    if ts == [] then multiset{} else IdBag(ts[0]) + IdBags(ts[1..])
  }

  ghost function Mentions<E>(t: Shape<E>): multiset<nat>
    decreases t, 1
  {
    multiset(Ids(t.kids)) + MentionsIn(t.kids)
  }

  ghost function MentionsIn<E>(ts: seq<Shape<E>>): multiset<nat>
    decreases ts, 0
  {
    if ts == [] then multiset{} else Mentions(ts[0]) + MentionsIn(ts[1..])
  }

  lemma IdsCons<E>(ts: seq<Shape<E>>)
    requires ts != []
    ensures multiset(Ids(ts)) == multiset{ts[0].id} + multiset(Ids(ts[1..]))
  {
    assert Ids(ts) == [ts[0].id] + Ids(ts[1..]);
  }

  /** Each node is listed once, the root of the tree not at all. */
  lemma {:induction false} MentionedOnce<E>(t: Shape<E>)
    ensures IdBag(t) == Mentions(t) + multiset{t.id}
    decreases t, 1
  {
    MentionedOnceIn(t.kids);
  }

  lemma {:induction false} MentionedOnceIn<E>(ts: seq<Shape<E>>)
    ensures IdBags(ts) == MentionsIn(ts) + multiset(Ids(ts))
    decreases ts, 0
  {
    if ts != [] {
      MentionedOnce(ts[0]);
      MentionedOnceIn(ts[1..]);
      IdsCons(ts);
    }
  }

  /** With all its nodes stored under their ids, t uses an id as often as it uses that stored node. */
  lemma {:induction false} IdCount<E>(nodes: Store<E>, t: Shape<E>, id: nat)
    requires Keyed(nodes) && forall n :: n in Bag(t) ==> n.id in nodes && nodes[n.id] == n
    ensures IdBag(t)[id] == if id in nodes then Bag(t)[nodes[id]] else 0
    decreases t, 1
  {
    assert View(t) in Bag(t);
    assert forall n :: n in Bags(t.kids) ==> n in Bag(t);
    IdCountIn(nodes, t.kids, id);
  }

  lemma {:induction false} IdCountIn<E>(nodes: Store<E>, ts: seq<Shape<E>>, id: nat)
    requires Keyed(nodes) && forall n :: n in Bags(ts) ==> n.id in nodes && nodes[n.id] == n
    ensures IdBags(ts)[id] == if id in nodes then Bags(ts)[nodes[id]] else 0
    decreases ts, 0
  {
    if ts != [] {
      assert forall n :: n in Bag(ts[0]) ==> n in Bags(ts);
      assert forall n :: n in Bags(ts[1..]) ==> n in Bags(ts);
      IdCount(nodes, ts[0], id);
      IdCountIn(nodes, ts[1..], id);
    }
  }

  lemma IdOnce<E>(nodes: Store<E>, t: Shape<E>, id: nat)
    requires Holds(nodes, t)
    ensures IdBag(t)[id] == if id in nodes then 1 else 0
  {
    forall n | n in Bag(t) ensures n.id in nodes && nodes[n.id] == n {
      assert n in nodes.Values;
    }
    IdCount(nodes, t, id);
    if id in nodes {
      assert nodes[id] in nodes.Values;
      assert Bag(t)[nodes[id]] == multiset(nodes.Values)[nodes[id]] == 1;
    }
  }

  lemma {:induction false} MentionedBy<E>(t: Shape<E>, n: Node<E>)
    requires n in Bag(t)
    ensures multiset(n.children) <= Mentions(t)
    decreases t, 1
  {
    if n != View(t) {
      assert n in Bags(t.kids);
      MentionedByIn(t.kids, n);
    }
  }

  lemma {:induction false} MentionedByIn<E>(ts: seq<Shape<E>>, n: Node<E>)
    requires n in Bags(ts)
    ensures multiset(n.children) <= MentionsIn(ts)
    decreases ts, 0
  {
    if n in Bag(ts[0]) {
      MentionedBy(ts[0], n);
    } else {
      assert n in Bags(ts[1..]);
      MentionedByIn(ts[1..], n);
    }
  }

  lemma {:induction false} MentionedByBoth<E>(t: Shape<E>, m: Node<E>, n: Node<E>)
    requires m in Bag(t) && n in Bag(t) && m != n
    ensures multiset(m.children) + multiset(n.children) <= Mentions(t)
    decreases t, 1
  {
    if m == View(t) {
      assert n in Bags(t.kids);
      MentionedByIn(t.kids, n);
    } else if n == View(t) {
      assert m in Bags(t.kids);
      MentionedByIn(t.kids, m);
    } else {
      assert m in Bags(t.kids) && n in Bags(t.kids);
      MentionedByBothIn(t.kids, m, n);
    }
  }

  lemma {:induction false} MentionedByBothIn<E>(ts: seq<Shape<E>>, m: Node<E>, n: Node<E>)
    requires m in Bags(ts) && n in Bags(ts) && m != n
    ensures multiset(m.children) + multiset(n.children) <= MentionsIn(ts)
    decreases ts, 0
  {
    var x, y := ts[0], ts[1..];
    assert m in Bag(x) || m in Bags(y);
    assert n in Bag(x) || n in Bags(y);
    if m in Bag(x) && n in Bag(x) {
      MentionedByBoth(x, m, n);
    } else if m in Bag(x) {
      MentionedBy(x, m);
      MentionedByIn(y, n);
    } else if n in Bag(x) {
      MentionedBy(x, n);
      MentionedByIn(y, m);
    } else {
      MentionedByBothIn(y, m, n);
    }
  }

  // ---- links between stored nodes ----

  /** Every link leads to a stored node other than the root. */
  ghost predicate Closed<E>(nodes: Store<E>, root: nat) {
    && root in nodes
    && forall id, p :: id in nodes && 0 <= p < |nodes[id].children| ==>
         nodes[id].children[p] in nodes && nodes[id].children[p] != root
  }

  /** No two links lead to the same node. */
  ghost predicate SingleParent<E>(nodes: Store<E>) {
    forall i, p, j, q |
      && i in nodes && 0 <= p < |nodes[i].children|
      && j in nodes && 0 <= q < |nodes[j].children|
      && nodes[i].children[p] == nodes[j].children[q]
    :: i == j && p == q
  }

  lemma HoldsClosed<E>(nodes: Store<E>, t: Shape<E>)
    requires Holds(nodes, t)
    ensures Closed(nodes, t.id)
  {
    MentionedOnce(t);
    IdOnce(nodes, t, t.id);
    forall id, p | id in nodes && 0 <= p < |nodes[id].children|
      ensures nodes[id].children[p] in nodes && nodes[id].children[p] != t.id
    {
      var n, c := nodes[id], nodes[id].children[p];
      assert n in multiset(nodes.Values);
      MentionedBy(t, n);
      assert c in multiset(n.children);
      assert c in Mentions(t);
      IdOnce(nodes, t, c);
    }
  }

  lemma TwiceInChildren(s: seq<nat>, p: nat, q: nat)
    requires p < q < |s| && s[p] == s[q]
    ensures multiset(s)[s[p]] >= 2
  {
    var x, y := s[..q], s[q..];
    assert s == x + y;
    assert s[p] in x && s[q] in y by {
      assert x[p] == s[p] && y[0] == s[q];
    }
    assert multiset(s) == multiset(x) + multiset(y);
  }

  lemma HoldsSingleParent<E>(nodes: Store<E>, t: Shape<E>)
    requires Holds(nodes, t)
    ensures SingleParent(nodes)
  {
    MentionedOnce(t);
    forall i, p, j, q | i in nodes && 0 <= p < |nodes[i].children| && j in nodes && 0 <= q < |nodes[j].children|
                        && nodes[i].children[p] == nodes[j].children[q]
      ensures i == j && p == q
    {
      var m, n, c := nodes[i], nodes[j], nodes[i].children[p];
      assert m in multiset(nodes.Values) && n in multiset(nodes.Values);
      assert c in multiset(m.children) && c in multiset(n.children);
      IdOnce(nodes, t, c);
      assert Mentions(t)[c] <= 1;
      if i != j {
        MentionedByBoth(t, m, n);
      } else if p != q {
        MentionedBy(t, m);
        TwiceInChildren(m.children, if p < q then p else q, if p < q then q else p);
      }
    }
  }

  // ---- reachability ----

  /** A walk over links that starts at from. */
  ghost predicate Walk<E>(nodes: Store<E>, from: nat, ids: seq<nat>) {
    && ids != [] && ids[0] == from
    && (forall i :: 0 <= i < |ids| ==> ids[i] in nodes)
    && (forall i :: 0 <= i < |ids| - 1 ==> ids[i + 1] in nodes[ids[i]].children)
  }

  ghost predicate Reachable<E>(nodes: Store<E>, from: nat, id: nat) {
    exists ids :: Walk(nodes, from, ids) && ids[|ids| - 1] == id
  }

  lemma WalkOn<E>(nodes: Store<E>, from: nat, next: nat, id: nat)
    requires from in nodes && next in nodes[from].children && Reachable(nodes, next, id)
    ensures Reachable(nodes, from, id)
  {
    var ids :| Walk(nodes, next, ids) && ids[|ids| - 1] == id;
    var more := [from] + ids;
    forall i | 0 <= i < |more| - 1 ensures more[i + 1] in nodes[more[i]].children {
      if i > 0 {
        assert ids[i - 1 + 1] in nodes[ids[i - 1]].children;
      }
    }
    assert Walk(nodes, from, more) && more[|more| - 1] == id;
  }

  lemma {:induction false} ReachableInside<E>(nodes: Store<E>, t: Shape<E>, n: Node<E>)
    requires (forall m :: m in Bag(t) ==> m.id in nodes && nodes[m.id] == m) && n in Bag(t)
    ensures Reachable(nodes, t.id, n.id)
    decreases t
  {
    assert View(t) in Bag(t);
    if n == View(t) {
      assert Walk(nodes, t.id, [t.id]);
    } else {
      var i := KidWith(t.kids, n);
      BagOfKid(t.kids, i);
      assert forall m :: m in Bag(t.kids[i]) ==> m in Bags(t.kids);
      ReachableInside(nodes, t.kids[i], n);
      assert nodes[t.id].children[i] == t.kids[i].id;
      WalkOn(nodes, t.id, t.kids[i].id, n.id);
    }
  }

  lemma {:induction false} KidWith<E>(ts: seq<Shape<E>>, n: Node<E>) returns (i: nat)
    requires n in Bags(ts)
    ensures i < |ts| && n in Bag(ts[i])
  {
    if n in Bag(ts[0]) {
      i := 0;
    } else {
      i := KidWith(ts[1..], n);
      i := i + 1;
    }
  }

  /** No leaks and no dangling links: the stored ids are those reachable from the root. */
  lemma StoredIsReachable<E>(nodes: Store<E>, t: Shape<E>, id: nat)
    requires Holds(nodes, t)
    ensures id in nodes <==> Reachable(nodes, t.id, id)
  {
    if id in nodes {
      assert nodes[id] in multiset(nodes.Values);
      forall m | m in Bag(t) ensures m.id in nodes && nodes[m.id] == m {
        assert m in nodes.Values;
      }
      ReachableInside(nodes, t, nodes[id]);
    }
  }
}
