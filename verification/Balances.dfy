/** The upward half of Delete: one node on the path may have a value too few; borrowing and merging mend it. */
module Balances {
  import opened Shapes
  import opened Frames
  import opened Entries
  import opened Search
  import opened Slices
  import opened Splits

  /** Only cur may be thin, with a - 2 values at least; everything is stored. */
  ghost predicate Balancing<V>(nodes: Store<Entry<V>>, fs: Path<Entry<V>>, cur: Shape<Entry<V>>,
                               h: nat, a: nat, b: nat, s: seq<Entry<V>>) {
    && ThinFits(fs, cur, h, a, b)
    && Holds(nodes, Plug(fs, cur))
    && Reads(fs, cur, s)
  }

  ghost predicate ThinFits<E>(fs: Path<E>, cur: Shape<E>, h: nat, a: nat, b: nat) {
    && a >= 2 && 2 * a - 1 <= b
    && PathFits(fs, h, a, b)
    && Uniform(cur, h) && Bounded(cur, a, b)
    && (fs == [] && h > 1 ==> |cur.values| > 0)
    && (fs != [] ==> a <= |cur.values| + 2 && |fs[0].values| > 0)
  }

  /** Mended: the stored nodes are a whole tree again. */
  lemma Mended<V>(nodes: Store<Entry<V>>, fs: Path<Entry<V>>, cur: Shape<Entry<V>>,
                  h: nat, a: nat, b: nat, s: seq<Entry<V>>)
    requires Balancing(nodes, fs, cur, h, a, b, s) && Plug(fs, cur).id == 0
    requires fs == [] || a <= |cur.values| + 1
    ensures TreeStored(nodes, h + |fs|, a, b) && InOrder(Unfold(nodes, 0, h + |fs|)) == s
  {
    hide Unfold, Uniform, Bounded, PathFits, Before, After;
    PlugInOrder(fs, cur);
    PlugFits(fs, cur, h, a, b);
    Conclude(nodes, Plug(fs, cur), h + |fs|, a, b);
  }

  // ---- two neighbours under their parent ----

  /** What a parent has left and right of two neighbouring children. */
  datatype Joint<E> = Joint(id: nat, vl: seq<E>, l: seq<Shape<E>>, vr: seq<E>, r: seq<Shape<E>>)

  ghost predicate SoundJoint<E>(j: Joint<E>) {
    |j.vl| == |j.l| && |j.vr| == |j.r|
  }

  ghost function JoinTwo<E>(j: Joint<E>, x: Shape<E>, m: E, y: Shape<E>): Shape<E> {
    Shape(j.id, j.vl + [m] + j.vr, j.l + [x, y] + j.r)
  }

  ghost function JoinOne<E>(j: Joint<E>, x: Shape<E>): Shape<E> {
    Shape(j.id, j.vl + j.vr, j.l + [x] + j.r)
  }

  ghost function WithRight<E>(f: Frame<E>): Joint<E>
    requires Sound(f) && f.right != []
  {
    Joint(f.id, f.values[..|f.left|], f.left, f.values[|f.left| + 1..], f.right[1..])
  }

  ghost function WithLeft<E>(f: Frame<E>): Joint<E>
    requires Sound(f) && f.left != []
  {
    Joint(f.id, f.values[..|f.left| - 1], f.left[..|f.left| - 1], f.values[|f.left|..], f.right)
  }

  lemma FillRight<E>(f: Frame<E>, t: Shape<E>)
    requires Sound(f) && f.right != []
    ensures SoundJoint(WithRight(f))
    ensures Fill(f, t) == JoinTwo(WithRight(f), t, f.values[|f.left|], f.right[0])
  {
    var j := WithRight(f);
    assert f.values == j.vl + [f.values[|f.left|]] + j.vr;
    assert f.left + [t] + f.right == j.l + [t, f.right[0]] + j.r;
  }

  lemma FillLeft<E>(f: Frame<E>, t: Shape<E>)
    requires Sound(f) && f.left != []
    ensures SoundJoint(WithLeft(f))
    ensures Fill(f, t) == JoinTwo(WithLeft(f), f.left[|f.left| - 1], f.values[|f.left| - 1], t)
  {
    var j := WithLeft(f);
    assert f.values == j.vl + [f.values[|f.left| - 1]] + j.vr;
    assert f.left + [t] + f.right == j.l + [f.left[|f.left| - 1], t] + j.r;
  }

  ghost predicate JointFits<E>(j: Joint<E>, h: nat, a: nat, b: nat) {
    && SoundJoint(j)
    && |j.vl| + |j.vr| + 1 < b
    && (forall i :: 0 <= i < |j.l| ==> KidFits(j.l[i], h, a, b))
    && (forall i :: 0 <= i < |j.r| ==> KidFits(j.r[i], h, a, b))
  }

  lemma JoinTwoFits<E>(j: Joint<E>, x: Shape<E>, m: E, y: Shape<E>, h: nat, a: nat, b: nat)
    requires JointFits(j, h, a, b) && KidFits(x, h, a, b) && KidFits(y, h, a, b)
    ensures Uniform(JoinTwo(j, x, m, y), h + 1) && Bounded(JoinTwo(j, x, m, y), a, b)
  {
    var t := JoinTwo(j, x, m, y);
    forall i | 0 <= i < |t.kids| ensures KidFits(t.kids[i], h, a, b) {
    }
  }

  lemma JoinOneFits<E>(j: Joint<E>, x: Shape<E>, h: nat, a: nat, b: nat)
    requires JointFits(j, h, a, b) && KidFits(x, h, a, b)
    ensures Uniform(JoinOne(j, x), h + 1) && Bounded(JoinOne(j, x), a, b)
  {
    var t := JoinOne(j, x);
    forall i | 0 <= i < |t.kids| ensures KidFits(t.kids[i], h, a, b) {
    }
  }

  /** Neighbours that read the same together leave the parent reading the same. */
  lemma JoinTwoInOrder<E>(j: Joint<E>, x: Shape<E>, m: E, y: Shape<E>, x': Shape<E>, m': E, y': Shape<E>)
    requires SoundJoint(j)
    requires InOrder(x) + [m] + InOrder(y) == InOrder(x') + [m'] + InOrder(y')
    ensures InOrder(JoinTwo(j, x, m, y)) == InOrder(JoinTwo(j, x', m', y'))
  {
    WeavePair(j.vl, j.l, x, m, y, j.vr, j.r);
    WeavePair(j.vl, j.l, x', m', y', j.vr, j.r);
    Regroup(LeftWeave(j.vl, j.l), InOrder(x), [m], InOrder(y), RightWeave(j.vr, j.r));
    Regroup(LeftWeave(j.vl, j.l), InOrder(x'), [m'], InOrder(y'), RightWeave(j.vr, j.r));
  }

  lemma JoinOneInOrder<E>(j: Joint<E>, x: Shape<E>, m: E, y: Shape<E>, z: Shape<E>)
    requires SoundJoint(j)
    requires InOrder(x) + [m] + InOrder(y) == InOrder(z)
    ensures InOrder(JoinTwo(j, x, m, y)) == InOrder(JoinOne(j, z))
  {
    WeavePair(j.vl, j.l, x, m, y, j.vr, j.r);
    WeaveAround(j.vl, j.l, z, j.vr, j.r);
    Regroup(LeftWeave(j.vl, j.l), InOrder(x), [m], InOrder(y), RightWeave(j.vr, j.r));
  }

  // ---- borrowing and merging ----

  /** Both leaves, or both with one child more than values. */
  ghost predicate Alike<E>(x: Shape<E>, y: Shape<E>) {
    (x.kids == [] && y.kids == []) || (|x.kids| == |x.values| + 1 && |y.kids| == |y.values| + 1)
  }

  lemma KidsAlike<E>(x: Shape<E>, y: Shape<E>, h: nat)
    requires Uniform(x, h) && Uniform(y, h)
    ensures Alike(x, y) && (x.kids == [] <==> y.kids == [])
  {
  }

  /** x takes m and the first child of y. */
  ghost function Receiver<E>(x: Shape<E>, m: E, y: Shape<E>): Shape<E> {
    Shape(x.id, x.values + [m], if y.kids == [] then x.kids else x.kids + [y.kids[0]])
  }

  ghost function WithoutFirst<E>(y: Shape<E>): Shape<E>
    requires y.values != []
  {
    Shape(y.id, y.values[1..], if y.kids == [] then [] else y.kids[1..])
  }

  lemma InOrderIsWeave<E>(t: Shape<E>)
    ensures InOrder(t) == Weave(t.values, t.kids)
  {
  }

  lemma BorrowRight<E>(x: Shape<E>, m: E, y: Shape<E>)
    requires Alike(x, y) && y.values != []
    ensures InOrder(Receiver(x, m, y)) + [y.values[0]] + InOrder(WithoutFirst(y)) == InOrder(x) + [m] + InOrder(y)
  {
    var u, v := Receiver(x, m, y), WithoutFirst(y);
    if y.kids == [] {
      assert y.values == [y.values[0]] + v.values;
    } else {
      hide InOrder;
      var c, first := y.kids[0], y.values[0];
      WeaveSplit(x.values, x.kids, m, [], [c]);
      WeaveSplit([], [c], first, v.values, v.kids);
      assert u.values == x.values + [m] + [];
      assert y.kids == [c] + v.kids && y.values == [] + [first] + v.values;
      InOrderIsWeave(u);
      InOrderIsWeave(v);
      InOrderIsWeave(x);
      InOrderIsWeave(y);
      Assoc(Weave(x.values, x.kids) + [m], Weave([], [c]), [first], InOrder(v));
    }
  }

  lemma BorrowRightBags<E>(x: Shape<E>, m: E, y: Shape<E>)
    requires y.values != []
    ensures Bags(Receiver(x, m, y).kids) + Bags(WithoutFirst(y).kids) == Bags(x.kids) + Bags(y.kids)
  {
    var v := WithoutFirst(y);
    if y.kids != [] {
      assert y.kids == [y.kids[0]] + v.kids;
      BagsConcat(x.kids, [y.kids[0]]);
      BagsConcat([y.kids[0]], v.kids);
    }
  }

  /** y takes m and the last child of x. */
  ghost function Acceptor<E>(x: Shape<E>, m: E, y: Shape<E>): Shape<E> {
    Shape(y.id, [m] + y.values, if x.kids == [] then y.kids else [x.kids[|x.kids| - 1]] + y.kids)
  }

  ghost function WithoutLast<E>(x: Shape<E>): Shape<E>
    requires x.values != []
  {
    Shape(x.id, x.values[..|x.values| - 1], if x.kids == [] then [] else x.kids[..|x.kids| - 1])
  }

  lemma BorrowLeft<E>(x: Shape<E>, m: E, y: Shape<E>)
    requires Alike(x, y) && x.values != []
    ensures InOrder(WithoutLast(x)) + [x.values[|x.values| - 1]] + InOrder(Acceptor(x, m, y))
            == InOrder(x) + [m] + InOrder(y)
  {
    var u, v, last := WithoutLast(x), Acceptor(x, m, y), x.values[|x.values| - 1];
    assert x.values == u.values + [last] + [];
    if x.kids != [] {
      hide InOrder;
      var c := x.kids[|x.kids| - 1];
      WeaveSplit(u.values, u.kids, last, [], [c]);
      WeaveSplit([], [c], m, y.values, y.kids);
      assert v.values == [] + [m] + y.values;
      assert x.kids == u.kids + [c];
      InOrderIsWeave(u);
      InOrderIsWeave(v);
      InOrderIsWeave(x);
      InOrderIsWeave(y);
      Assoc(InOrder(u) + [last], Weave([], [c]), [m], InOrder(y));
    }
  }

  lemma BorrowLeftBags<E>(x: Shape<E>, m: E, y: Shape<E>)
    requires x.values != []
    ensures Bags(WithoutLast(x).kids) + Bags(Acceptor(x, m, y).kids) == Bags(x.kids) + Bags(y.kids)
  {
    var u := WithoutLast(x);
    if x.kids != [] {
      var c := x.kids[|x.kids| - 1];
      assert x.kids == u.kids + [c];
      BagsConcat(u.kids, [c]);
      BagsConcat([c], y.kids);
    }
  }

  ghost function Merged<E>(x: Shape<E>, m: E, y: Shape<E>): Shape<E> {
    Shape(x.id, x.values + [m] + y.values, x.kids + y.kids)
  }

  lemma MergeInOrder<E>(x: Shape<E>, m: E, y: Shape<E>)
    requires Alike(x, y)
    ensures InOrder(Merged(x, m, y)) == InOrder(x) + [m] + InOrder(y)
    ensures Bags(Merged(x, m, y).kids) == Bags(x.kids) + Bags(y.kids)
  {
    WeaveSplit(x.values, x.kids, m, y.values, y.kids);
    BagsConcat(x.kids, y.kids);
  }

  ghost predicate AlmostFits<E>(t: Shape<E>, h: nat, a: nat, b: nat) {
    Uniform(t, h) && Bounded(t, a, b)
  }

  lemma BorrowRightFits<E>(x: Shape<E>, m: E, y: Shape<E>, h: nat, a: nat, b: nat)
    requires AlmostFits(x, h, a, b) && AlmostFits(y, h, a, b) && a == |x.values| + 2 && a <= |y.values|
             && 2 * a - 1 <= b && a >= 2
    ensures KidFits(Receiver(x, m, y), h, a, b) && KidFits(WithoutFirst(y), h, a, b)
  {
    KidsAlike(x, y, h);
    var u := Receiver(x, m, y);
    if h > 1 {
      assert forall i :: 0 <= i < |u.kids| ==> u.kids[i] == if i < |x.kids| then x.kids[i] else y.kids[0];
    }
  }

  lemma BorrowLeftFits<E>(x: Shape<E>, m: E, y: Shape<E>, h: nat, a: nat, b: nat)
    requires AlmostFits(x, h, a, b) && AlmostFits(y, h, a, b) && a == |y.values| + 2 && a <= |x.values|
             && 2 * a - 1 <= b && a >= 2
    ensures KidFits(WithoutLast(x), h, a, b) && KidFits(Acceptor(x, m, y), h, a, b)
  {
    KidsAlike(x, y, h);
    var v := Acceptor(x, m, y);
    if h > 1 {
      assert forall i :: 0 <= i < |v.kids| ==> v.kids[i] == if i == 0 then x.kids[|x.kids| - 1] else y.kids[i - 1];
    }
  }

  /** Merging a node with a - 2 values and one with a - 1 makes one with 2 * a - 2, within b - 1. */
  lemma MergeFits<E>(x: Shape<E>, m: E, y: Shape<E>, h: nat, a: nat, b: nat)
    requires AlmostFits(x, h, a, b) && AlmostFits(y, h, a, b) && |x.values| + |y.values| == 2 * a - 3
             && 2 * a - 1 <= b && a >= 2
    ensures KidFits(Merged(x, m, y), h, a, b)
  {
    KidsAlike(x, y, h);
    var u := Merged(x, m, y);
    if h > 1 {
      assert forall i :: 0 <= i < |u.kids| ==> u.kids[i] == if i < |x.kids| then x.kids[i] else y.kids[i - |x.kids|];
    }
  }

  // ---- what is stored ----

  ghost function Rest<E>(gs: Path<E>, j: Joint<E>): multiset<Node<E>> {
    PathBag(gs, j.id) + Bags(j.l) + Bags(j.r)
  }

  lemma SumOfPair<N>(outside: multiset<N>, p: N, l: multiset<N>, x: N, xs: multiset<N>, y: N, ys: multiset<N>,
                     r: multiset<N>)
    ensures outside + (multiset{p} + (l + (multiset{x} + xs) + (multiset{y} + ys) + r))
         == (outside + l + r) + (xs + ys) + multiset{p, x, y}
  {
  }

  lemma BagOfJoinTwo<E>(gs: Path<E>, j: Joint<E>, x: Shape<E>, m: E, y: Shape<E>)
    ensures Bag(Plug(gs, JoinTwo(j, x, m, y)))
         == Rest(gs, j) + (Bags(x.kids) + Bags(y.kids)) + multiset{View(JoinTwo(j, x, m, y)), View(x), View(y)}
  {
    hide Bags, PathBag, View, Plug;
    var t := JoinTwo(j, x, m, y);
    PlugBag(gs, t);
    BagOfPair(j.l, x, y, j.r);
    SumOfPair(PathBag(gs, j.id), View(t), Bags(j.l), View(x), Bags(x.kids), View(y), Bags(y.kids), Bags(j.r));
  }

  lemma BagOfJoinOne<E>(gs: Path<E>, j: Joint<E>, z: Shape<E>)
    ensures Bag(Plug(gs, JoinOne(j, z)))
         == Rest(gs, j) + Bags(z.kids) + multiset{View(JoinOne(j, z)), View(z)}
  {
    hide Bags, PathBag, View;
    PlugBag(gs, JoinOne(j, z));
    BagOfOne(j.l, z, j.r);
  }

  /** Three different nodes and the others, as a store. */
  lemma StoredThree<E>(nodes: Store<E>, rest: multiset<Node<E>>, p: Node<E>, x: Node<E>, y: Node<E>)
    requires Keyed(nodes) && multiset(nodes.Values) == rest + multiset{p, x, y}
    ensures p.id in nodes && nodes[p.id] == p && x.id in nodes && nodes[x.id] == x && y.id in nodes && nodes[y.id] == y
    ensures p.id != x.id && p.id != y.id && x.id != y.id
  {
    assert p in multiset(nodes.Values) && x in multiset(nodes.Values) && y in multiset(nodes.Values);
    DistinctIds(nodes, p, x);
    DistinctIds(nodes, p, y);
    DistinctIds(nodes, x, y);
  }

  lemma PairStored<E>(nodes: Store<E>, gs: Path<E>, j: Joint<E>, x: Shape<E>, m: E, y: Shape<E>)
    requires Holds(nodes, Plug(gs, JoinTwo(j, x, m, y)))
    ensures j.id in nodes && nodes[j.id] == View(JoinTwo(j, x, m, y))
    ensures x.id in nodes && nodes[x.id] == View(x)
    ensures y.id in nodes && nodes[y.id] == View(y)
    ensures j.id != x.id && j.id != y.id && x.id != y.id
  {
    hide Bags, Bag, PathBag, Plug;
    BagOfJoinTwo(gs, j, x, m, y);
    StoredThree(nodes, Rest(gs, j) + (Bags(x.kids) + Bags(y.kids)), View(JoinTwo(j, x, m, y)), View(x), View(y));
  }

  lemma WriteThree<E>(nodes: Store<E>, rest: multiset<Node<E>>, p: Node<E>, x: Node<E>, y: Node<E>,
                      p': Node<E>, x': Node<E>, y': Node<E>)
    requires Keyed(nodes) && multiset(nodes.Values) == rest + multiset{p, x, y}
    requires p'.id == p.id && x'.id == x.id && y'.id == y.id
    ensures var after := nodes[x.id := x'][p.id := p'][y.id := y'];
            Keyed(after) && multiset(after.Values) == rest + multiset{p', x', y'}
  {
    StoredThree(nodes, rest, p, x, y);
    ValuesAfterWrite(nodes, x');
    var n1 := nodes[x.id := x'];
    ValuesAfterWrite(n1, p');
    ValuesAfterWrite(n1[p.id := p'], y');
  }

  lemma BorrowStored<E>(nodes: Store<E>, gs: Path<E>, j: Joint<E>, x: Shape<E>, m: E, y: Shape<E>,
                        x': Shape<E>, m': E, y': Shape<E>)
    requires Holds(nodes, Plug(gs, JoinTwo(j, x, m, y)))
    requires x'.id == x.id && y'.id == y.id && Bags(x'.kids) + Bags(y'.kids) == Bags(x.kids) + Bags(y.kids)
    ensures Holds(nodes[x.id := View(x')][j.id := View(JoinTwo(j, x', m', y'))][y.id := View(y')],
                  Plug(gs, JoinTwo(j, x', m', y')))
  {
    hide Bags, Bag, PathBag, Plug;
    BagOfJoinTwo(gs, j, x, m, y);
    BagOfJoinTwo(gs, j, x', m', y');
    WriteThree(nodes, Rest(gs, j) + (Bags(x.kids) + Bags(y.kids)), View(JoinTwo(j, x, m, y)), View(x), View(y),
               View(JoinTwo(j, x', m', y')), View(x'), View(y'));
  }

  lemma DropOne<E>(nodes: Store<E>, rest: multiset<Node<E>>, p: Node<E>, x: Node<E>, y: Node<E>, p': Node<E>,
                   x': Node<E>)
    requires Keyed(nodes) && multiset(nodes.Values) == rest + multiset{p, x, y}
    requires p'.id == p.id && x'.id == x.id
    ensures var after := (nodes[p.id := p'] - {y.id})[x.id := x'];
            Keyed(after) && multiset(after.Values) == rest + multiset{p', x'}
  {
    StoredThree(nodes, rest, p, x, y);
    ValuesAfterWrite(nodes, p');
    var n1 := nodes[p.id := p'];
    ValuesAfterRemoval(n1, y.id);
    ValuesAfterWrite(n1 - {y.id}, x');
  }

  lemma MergeStored<E>(nodes: Store<E>, gs: Path<E>, j: Joint<E>, x: Shape<E>, m: E, y: Shape<E>)
    requires Holds(nodes, Plug(gs, JoinTwo(j, x, m, y))) && Alike(x, y)
    ensures var z := Merged(x, m, y);
            Holds((nodes[j.id := View(JoinOne(j, z))] - {y.id})[x.id := View(z)], Plug(gs, JoinOne(j, z)))
  {
    hide Bags, Bag, PathBag, Plug, InOrder;
    var z := Merged(x, m, y);
    MergeInOrder(x, m, y);
    BagOfJoinTwo(gs, j, x, m, y);
    BagOfJoinOne(gs, j, z);
    DropOne(nodes, Rest(gs, j) + (Bags(x.kids) + Bags(y.kids)), View(JoinTwo(j, x, m, y)), View(x), View(y),
            View(JoinOne(j, z)), View(z));
  }

  lemma NoRest<E>(j: Joint<E>)
    requires j.l == [] && j.r == []
    ensures Rest([], j) == multiset{}
  {
  }

  lemma DropTwo<E>(nodes: Store<E>, rest: multiset<Node<E>>, p: Node<E>, x: Node<E>, y: Node<E>, p': Node<E>)
    requires Keyed(nodes) && multiset(nodes.Values) == rest + multiset{p, x, y} && p'.id == p.id
    ensures var after := (nodes - {x.id} - {y.id})[p.id := p'];
            Keyed(after) && multiset(after.Values) == rest + multiset{p'}
  {
    StoredThree(nodes, rest, p, x, y);
    ValuesAfterRemoval(nodes, x.id);
    ValuesAfterRemoval(nodes - {x.id}, y.id);
    ValuesAfterWrite(nodes - {x.id} - {y.id}, p');
  }

  /** A root left without values gives way to the merged node, which takes its id. */
  lemma CollapseStored<E>(nodes: Store<E>, j: Joint<E>, x: Shape<E>, m: E, y: Shape<E>)
    requires Holds(nodes, JoinTwo(j, x, m, y)) && Alike(x, y) && j.l == [] && j.r == []
    ensures var z := Merged(x, m, y).(id := j.id);
            Holds((nodes - {x.id} - {y.id})[j.id := View(z)], z)
  {
    hide Bags, PathBag, InOrder;
    var z := Merged(x, m, y).(id := j.id);
    MergeInOrder(x, m, y);
    PlugNone(JoinTwo(j, x, m, y));
    BagOfJoinTwo([], j, x, m, y);
    NoRest(j);
    DropTwo(nodes, Bags(x.kids) + Bags(y.kids), View(JoinTwo(j, x, m, y)), View(x), View(y), View(z));
  }

  // ---- one turn of the loop ----

  lemma ReadsUp<V>(gs: Path<Entry<V>>, f: Frame<Entry<V>>, cur: Shape<Entry<V>>, up: Shape<Entry<V>>, s: seq<Entry<V>>)
    requires Reads(gs + [f], cur, s) && Sound(f) && SoundPath(gs) && InOrder(up) == InOrder(Fill(f, cur))
    ensures Reads(gs, up, s)
  {
    hide InOrder, Sorted, Before, After;
    var vl, vr := f.values[..|f.left|], f.values[|f.left|..];
    DownSides(gs, f);
    assert f.values == vl + vr;
    assert InOrder(Fill(f, cur)) == LeftWeave(vl, f.left) + InOrder(cur) + RightWeave(vr, f.right) by {
      FillInOrder(f, cur);
    }
    AssocAround(Before(gs), LeftWeave(vl, f.left), InOrder(cur), RightWeave(vr, f.right), After(gs));
  }

  lemma FillInOrder<E>(f: Frame<E>, t: Shape<E>)
    requires Sound(f)
    ensures InOrder(Fill(f, t))
         == LeftWeave(f.values[..|f.left|], f.left) + InOrder(t) + RightWeave(f.values[|f.left|..], f.right)
  {
    WeaveAround(f.values[..|f.left|], f.left, t, f.values[|f.left|..], f.right);
    assert f.values == f.values[..|f.left|] + f.values[|f.left|..];
  }

  lemma ThinUp<E>(gs: Path<E>, f: Frame<E>, cur: Shape<E>, up: Shape<E>, h: nat, a: nat, b: nat)
    requires ThinFits(gs + [f], cur, h, a, b)
    requires Uniform(up, h + 1) && Bounded(up, a, b) && |f.values| <= |up.values| + 1
    requires gs == [] ==> |up.values| > 0
    ensures ThinFits(gs, up, h + 1, a, b)
  {
    LastFrame(gs, f, h, a, b);
  }

  lemma WithRightFits<E>(f: Frame<E>, h: nat, a: nat, b: nat)
    requires FrameFits(f, h, a, b) && f.right != []
    ensures JointFits(WithRight(f), h, a, b) && KidFits(f.right[0], h, a, b)
  {
  }

  lemma WithLeftFits<E>(f: Frame<E>, h: nat, a: nat, b: nat)
    requires FrameFits(f, h, a, b) && f.left != []
    ensures JointFits(WithLeft(f), h, a, b) && KidFits(f.left[|f.left| - 1], h, a, b)
  {
  }

  /** cur and a neighbour x or y of it, under their parent. */
  ghost predicate Paired<E>(f: Frame<E>, cur: Shape<E>, j: Joint<E>, x: Shape<E>, m: E, y: Shape<E>) {
    && Sound(f) && SoundJoint(j)
    && Fill(f, cur) == JoinTwo(j, x, m, y)
    && (x == cur || y == cur)
  }

  ghost predicate PairedFits<E>(f: Frame<E>, cur: Shape<E>, j: Joint<E>, x: Shape<E>, m: E, y: Shape<E>, h: nat,
                                a: nat, b: nat) {
    && Paired(f, cur, j, x, m, y)
    && JointFits(j, h, a, b)
    && AlmostFits(x, h, a, b) && AlmostFits(y, h, a, b)
    && a <= |if x == cur then y.values else x.values| + 1
  }

  /** The neighbours change, the parent keeps its children. */
  lemma BorrowStep<V>(nodes: Store<Entry<V>>, gs: Path<Entry<V>>, f: Frame<Entry<V>>, cur: Shape<Entry<V>>,
                      h: nat, a: nat, b: nat, s: seq<Entry<V>>,
                      j: Joint<Entry<V>>, x: Shape<Entry<V>>, m: Entry<V>, y: Shape<Entry<V>>,
                      x': Shape<Entry<V>>, m': Entry<V>, y': Shape<Entry<V>>, after: Store<Entry<V>>)
    requires Balancing(nodes, gs + [f], cur, h, a, b, s)
    requires PairedFits(f, cur, j, x, m, y, h, a, b)
    requires after == nodes[x.id := View(x')][j.id := View(JoinTwo(j, x', m', y'))][y.id := View(y')]
    requires x'.id == x.id && y'.id == y.id && KidFits(x', h, a, b) && KidFits(y', h, a, b)
    requires Bags(x'.kids) + Bags(y'.kids) == Bags(x.kids) + Bags(y.kids)
    requires InOrder(x') + [m'] + InOrder(y') == InOrder(x) + [m] + InOrder(y)
    ensures Balancing(after, gs, JoinTwo(j, x', m', y'), h + 1, a, b, s)
  {
    hide Bags, Bag, InOrder, Uniform, Bounded, PathFits, Reads, KidFits, Plug, Keyed, AlmostFits;
    var up := JoinTwo(j, x', m', y');
    LastFrame(gs, f, h, a, b);
    PlugLast(gs, f, cur);
    BorrowStored(nodes, gs, j, x, m, y, x', m', y');
    JoinTwoInOrder(j, x, m, y, x', m', y');
    ReadsUp(gs, f, cur, up, s);
    JoinTwoFits(j, x', m', y', h, a, b);
    assert |up.values| == |f.values|;
    ThinUp(gs, f, cur, up, h, a, b);
  }

  /** The neighbours become one, the parent loses a child. */
  lemma MergeStep<V>(nodes: Store<Entry<V>>, gs: Path<Entry<V>>, f: Frame<Entry<V>>, cur: Shape<Entry<V>>,
                     h: nat, a: nat, b: nat, s: seq<Entry<V>>,
                     j: Joint<Entry<V>>, x: Shape<Entry<V>>, m: Entry<V>, y: Shape<Entry<V>>, after: Store<Entry<V>>)
    requires Balancing(nodes, gs + [f], cur, h, a, b, s)
    requires PairedFits(f, cur, j, x, m, y, h, a, b) && |x.values| + |y.values| == 2 * a - 3
    requires gs == [] ==> |f.values| > 1
    requires after == (nodes[j.id := View(JoinOne(j, Merged(x, m, y)))] - {y.id})[x.id := View(Merged(x, m, y))]
    ensures Balancing(after, gs, JoinOne(j, Merged(x, m, y)), h + 1, a, b, s)
  {
    hide Bags, Bag, InOrder, Uniform, Bounded, PathFits, Reads, KidFits, Plug, Keyed;
    var z := Merged(x, m, y);
    var up := JoinOne(j, z);
    KidsAlike(x, y, h);
    LastFrame(gs, f, h, a, b);
    PlugLast(gs, f, cur);
    MergeStored(nodes, gs, j, x, m, y);
    MergeInOrder(x, m, y);
    JoinOneInOrder(j, x, m, y, z);
    ReadsUp(gs, f, cur, up, s);
    MergeFits(x, m, y, h, a, b);
    JoinOneFits(j, z, h, a, b);
    assert |up.values| + 1 == |f.values|;
    ThinUp(gs, f, cur, up, h, a, b);
  }

  /** The neighbours become the root, and the tree one level lower. */
  lemma CollapseStep<V>(nodes: Store<Entry<V>>, f: Frame<Entry<V>>, cur: Shape<Entry<V>>,
                        h: nat, a: nat, b: nat, s: seq<Entry<V>>,
                        j: Joint<Entry<V>>, x: Shape<Entry<V>>, m: Entry<V>, y: Shape<Entry<V>>, after: Store<Entry<V>>)
    requires Balancing(nodes, [f], cur, h, a, b, s)
    requires PairedFits(f, cur, j, x, m, y, h, a, b) && |x.values| + |y.values| == 2 * a - 3
    requires |f.values| == 1 && f.id == 0
    requires after == (nodes - {x.id} - {y.id})[j.id := View(Merged(x, m, y).(id := j.id))]
    ensures TreeStored(after, h, a, b) && InOrder(Unfold(after, 0, h)) == s
  {
    hide Bags, Bag, Uniform, Bounded, PathFits, Keyed, Unfold, Plug;
    var z := Merged(x, m, y).(id := j.id);
    KidsAlike(x, y, h);
    assert [] + [f] == [f];
    PlugLast([], f, cur);
    PlugNone(Fill(f, cur));
    CollapseStored(nodes, j, x, m, y);
    MergeInOrder(x, m, y);
    JoinOneInOrder(j, x, m, y, z);
    ReadsUp([], f, cur, JoinOne(j, z), s);
    ReadsAlone(j, z, s);
    MergeFits(x, m, y, h, a, b);
    MergedProper(x, m, y, j.id, h, a, b);
    Conclude(after, z, h, a, b);
  }

  lemma ReadsAlone<V>(j: Joint<Entry<V>>, z: Shape<Entry<V>>, s: seq<Entry<V>>)
    requires Reads([], JoinOne(j, z), s) && j.l == [] && j.r == [] && j.vl == [] && j.vr == []
    ensures InOrder(z) == s && Sorted(s)
  {
    assert JoinOne(j, z).kids == [z] && JoinOne(j, z).values == [];
    assert [] + InOrder(JoinOne(j, z)) + [] == InOrder(JoinOne(j, z));
  }

  lemma MergedProper<E>(x: Shape<E>, m: E, y: Shape<E>, id: nat, h: nat, a: nat, b: nat)
    requires KidFits(Merged(x, m, y), h, a, b)
    ensures Proper(Merged(x, m, y).(id := id), h, a, b)
  {
  }

  lemma RightPair<V>(nodes: Store<Entry<V>>, gs: Path<Entry<V>>, f: Frame<Entry<V>>, cur: Shape<Entry<V>>,
                     h: nat, a: nat, b: nat, s: seq<Entry<V>>)
    requires Balancing(nodes, gs + [f], cur, h, a, b, s) && |f.left| == 0
    ensures Sound(f) && f.right != []
    ensures PairedFits(f, cur, WithRight(f), cur, f.values[0], f.right[0], h, a, b)
    ensures Alike(cur, f.right[0]) && (cur.kids == [] <==> f.right[0].kids == [])
  {
    hide InOrder, Reads, Plug, Keyed;
    LastFrame(gs, f, h, a, b);
    FillRight(f, cur);
    WithRightFits(f, h, a, b);
    KidsAlike(cur, f.right[0], h);
  }

  lemma LeftPair<V>(nodes: Store<Entry<V>>, gs: Path<Entry<V>>, f: Frame<Entry<V>>, cur: Shape<Entry<V>>,
                    h: nat, a: nat, b: nat, s: seq<Entry<V>>)
    requires Balancing(nodes, gs + [f], cur, h, a, b, s) && |f.left| > 0
    ensures Sound(f)
    ensures var x := f.left[|f.left| - 1];
            && PairedFits(f, cur, WithLeft(f), x, f.values[|f.left| - 1], cur, h, a, b)
            && Alike(x, cur) && (x.kids == [] <==> cur.kids == [])
  {
    hide InOrder, Reads, Plug, Keyed;
    LastFrame(gs, f, h, a, b);
    FillLeft(f, cur);
    WithLeftFits(f, h, a, b);
    KidsAlike(f.left[|f.left| - 1], cur, h);
  }

  // ---- the same on stored nodes ----

  lemma JoinTwoView<E>(j: Joint<E>, x: Shape<E>, m: E, y: Shape<E>, x': Shape<E>, m': E, y': Shape<E>)
    requires SoundJoint(j) && x.id == x'.id && y.id == y'.id
    ensures var p := View(JoinTwo(j, x, m, y));
            && |j.vl| < |p.values| && p.values[|j.vl|] == m && |p.children| == |p.values| + 1 && !p.leaf
            && p.children[|j.l|] == x.id && p.children[|j.l| + 1] == y.id
            && View(JoinTwo(j, x', m', y')) == p.(values := p.values[|j.vl| := m'])
  {
    IdsOfPair(j.l, x, y, j.r);
    IdsOfPair(j.l, x', y', j.r);
    assert (j.vl + [m] + j.vr)[|j.vl| := m'] == j.vl + [m'] + j.vr;
  }

  lemma JoinOneView<E>(j: Joint<E>, x: Shape<E>, m: E, y: Shape<E>, z: Shape<E>)
    requires SoundJoint(j) && x.id == z.id
    ensures var p := View(JoinTwo(j, x, m, y));
            && |j.vl| < |p.values| && p.values[|j.vl|] == m && |p.children| == |p.values| + 1 && !p.leaf
            && p.children[|j.l|] == x.id && p.children[|j.l| + 1] == y.id
            && View(JoinOne(j, z)) == p.(values := Removed(p.values, |j.vl|),
                                         children := Removed(p.children, |j.l| + 1))
  {
    IdsOfPair(j.l, x, y, j.r);
    IdsOfOne(j.l, z, j.r);
  }

  lemma BorrowRightViews<E>(x: Shape<E>, m: E, y: Shape<E>)
    requires Alike(x, y) && (x.kids == [] <==> y.kids == []) && y.values != []
    ensures var n, s := View(x), View(y);
            && (n.leaf <==> s.leaf) && (!s.leaf ==> |s.children| > 1)
            && View(Receiver(x, m, y))
               == n.(values := n.values + [m], children := if n.leaf then n.children else n.children + [s.children[0]])
            && View(WithoutFirst(y))
               == s.(values := Removed(s.values, 0), children := if n.leaf then s.children else Removed(s.children, 0))
  {
  }

  lemma BorrowLeftViews<E>(x: Shape<E>, m: E, y: Shape<E>)
    requires Alike(x, y) && (x.kids == [] <==> y.kids == []) && x.values != []
    ensures var s, n := View(x), View(y);
            && (n.leaf <==> s.leaf) && (!s.leaf ==> |s.children| > 1)
            && View(Acceptor(x, m, y))
               == n.(values := [m] + n.values,
                     children := if n.leaf then n.children else [s.children[|s.children| - 1]] + n.children)
            && View(WithoutLast(x))
               == s.(values := s.values[..|s.values| - 1],
                     children := if n.leaf then s.children else s.children[..|s.children| - 1])
  {
  }

  lemma MergeViews<E>(x: Shape<E>, m: E, y: Shape<E>)
    requires Alike(x, y) && (x.kids == [] <==> y.kids == [])
    ensures var l, r := View(x), View(y);
            View(Merged(x, m, y)) == l.(values := l.values + [m] + r.values, children := l.children + r.children)
  {
  }

  /** The stored parent and the stored neighbours of a pair. */
  lemma PairNodes<V>(nodes: Store<Entry<V>>, gs: Path<Entry<V>>, f: Frame<Entry<V>>, cur: Shape<Entry<V>>,
                     h: nat, a: nat, b: nat, s: seq<Entry<V>>,
                     j: Joint<Entry<V>>, x: Shape<Entry<V>>, m: Entry<V>, y: Shape<Entry<V>>)
    requires Balancing(nodes, gs + [f], cur, h, a, b, s) && Paired(f, cur, j, x, m, y)
    ensures j.id in nodes && nodes[j.id] == View(Fill(f, cur)) && j.id == f.id
    ensures x.id in nodes && nodes[x.id] == View(x)
    ensures y.id in nodes && nodes[y.id] == View(y)
    ensures j.id != x.id && j.id != y.id && x.id != y.id
    ensures var p := nodes[j.id];
            && p.values == f.values && |j.vl| < |p.values| && p.values[|j.vl|] == m && |p.children| == |p.values| + 1
            && p.children[|j.l|] == x.id && p.children[|j.l| + 1] == y.id
    ensures x.id != Plug(gs + [f], cur).id && y.id != Plug(gs + [f], cur).id
  {
    hide Plug, InOrder, Reads, ThinFits, Keyed, View;
    PlugLast(gs, f, cur);
    PairStored(nodes, gs, j, x, m, y);
    JoinTwoView(j, x, m, y, x, m, y);
    NotRoot(nodes, gs, JoinTwo(j, x, m, y), x);
    NotRoot(nodes, gs, JoinTwo(j, x, m, y), y);
    assert View(Fill(f, cur)).values == f.values by { FillView(f, cur); }
  }

  lemma BalancingNode<V>(nodes: Store<Entry<V>>, fs: Path<Entry<V>>, cur: Shape<Entry<V>>,
                         h: nat, a: nat, b: nat, s: seq<Entry<V>>)
    requires Balancing(nodes, fs, cur, h, a, b, s)
    ensures a >= 2 && 2 * a - 1 <= b && cur.id in nodes && nodes[cur.id] == View(cur)
  {
    hide Bags, PathBag, Plug, Reads;
    PlugBag(fs, cur);
    assert View(cur) in multiset(nodes.Values);
    StoredOnce(nodes, View(cur));
  }

  lemma ParentNode<V>(nodes: Store<Entry<V>>, gs: Path<Entry<V>>, f: Frame<Entry<V>>, cur: Shape<Entry<V>>,
                      h: nat, a: nat, b: nat, s: seq<Entry<V>>)
    requires Balancing(nodes, gs + [f], cur, h, a, b, s)
    ensures f.id in nodes && nodes[f.id] == View(Fill(f, cur))
  {
    hide Bags, PathBag, Plug, Reads, View, Fill, Bag;
    PlugLast(gs, f, cur);
    PlugBag(gs, Fill(f, cur));
    ViewInBag(Fill(f, cur));
    FillView(f, cur);
    assert View(Fill(f, cur)) in multiset(nodes.Values);
    StoredOnce(nodes, View(Fill(f, cur)));
  }

  lemma ViewInBag<E>(t: Shape<E>)
    ensures View(t) in Bag(t)
  {
  }

  /** The parts of PairNodes that a method needs before it reads the sibling. */
  lemma PairNodesFits<V>(nodes: Store<Entry<V>>, gs: Path<Entry<V>>, f: Frame<Entry<V>>, cur: Shape<Entry<V>>,
                         h: nat, a: nat, b: nat, s: seq<Entry<V>>,
                         j: Joint<Entry<V>>, x: Shape<Entry<V>>, m: Entry<V>, y: Shape<Entry<V>>)
    requires Balancing(nodes, gs + [f], cur, h, a, b, s) && PairedFits(f, cur, j, x, m, y, h, a, b)
    ensures j.id in nodes && nodes[j.id] == View(Fill(f, cur)) && j.id == f.id
    ensures x.id in nodes && nodes[x.id] == View(x)
    ensures y.id in nodes && nodes[y.id] == View(y)
    ensures j.id != x.id && j.id != y.id && x.id != y.id
    ensures var p := nodes[j.id];
            && p.values == f.values && |j.vl| == |j.l| < |p.values| && |p.children| == |p.values| + 1
            && p.children[|j.l|] == x.id && p.children[|j.l| + 1] == y.id
    ensures x.id != Plug(gs + [f], cur).id && y.id != Plug(gs + [f], cur).id
    ensures a >= 2 && 2 * a - 1 <= b
  {
    hide Balancing, Plug;
    AtLeast(nodes, gs, f, cur, h, a, b, s);
    PairNodes(nodes, gs, f, cur, h, a, b, s, j, x, m, y);
  }

  lemma FillView<E>(f: Frame<E>, t: Shape<E>)
    ensures View(Fill(f, t)).values == f.values && View(Fill(f, t)).id == f.id
  {
  }

  lemma {:induction false} RootInPath<E>(gs: Path<E>, t: Shape<E>)
    requires gs != []
    ensures View(Plug(gs, t)) in PathBag(gs, t.id)
  {
    var f, fs := gs[|gs| - 1], gs[..|gs| - 1];
    if fs == [] {
      IdsOfOne(f.left, t, f.right);
    } else {
      RootInPath(fs, Fill(f, t));
    }
  }

  /** A child is not the root of the stored tree. */
  lemma NotRoot<E>(nodes: Store<E>, gs: Path<E>, t: Shape<E>, x: Shape<E>)
    requires Holds(nodes, Plug(gs, t)) && x in t.kids
    ensures x.id != Plug(gs, t).id
  {
    var i :| 0 <= i < |t.kids| && t.kids[i] == x;
    PlugBag(gs, t);
    BagOfKid(t.kids, i);
    assert View(x) in Bags(t.kids);
    if gs == [] {
      assert multiset{View(t), View(x)} <= multiset(nodes.Values);
      DistinctIds(nodes, View(t), View(x));
    } else {
      RootInPath(gs, t);
      assert multiset{View(Plug(gs, t)), View(x)} <= multiset(nodes.Values);
      DistinctIds(nodes, View(Plug(gs, t)), View(x));
    }
  }

  /** n' has taken p's i-th value and the first child of its right sibling y, and p the first value of y. */
  ghost predicate LentByRight<E>(p: Node<E>, i: nat, n: Node<E>, y: Node<E>, p': Node<E>, n': Node<E>, y': Node<E>) {
    && i < |p.values| && y.values != [] && (!n.leaf ==> y.children != [])
    && n' == n.(values := n.values + [p.values[i]],
                children := if n.leaf then n.children else n.children + [y.children[0]])
    && y' == y.(values := Removed(y.values, 0), children := if n.leaf then y.children else Removed(y.children, 0))
    && p' == p.(values := p.values[i := y.values[0]])
  }

  /** n' has taken p's i-th value and the last child of its left sibling x, and p the last value of x. */
  ghost predicate LentByLeft<E>(p: Node<E>, i: nat, x: Node<E>, n: Node<E>, p': Node<E>, x': Node<E>, n': Node<E>) {
    && i < |p.values| && x.values != [] && (!n.leaf ==> x.children != [])
    && n' == n.(values := [p.values[i]] + n.values,
                children := if n.leaf then n.children else [x.children[|x.children| - 1]] + n.children)
    && x' == x.(values := x.values[..|x.values| - 1],
                children := if n.leaf then x.children else x.children[..|x.children| - 1])
    && p' == p.(values := p.values[i := x.values[|x.values| - 1]])
  }

  /** z holds the values and children of l and r around p's i-th value, and p' has lost that value and r. */
  ghost predicate MergedInto<E>(p: Node<E>, i: nat, l: Node<E>, r: Node<E>, p': Node<E>, z: Node<E>) {
    && i < |p.values| && i + 1 < |p.children|
    && z == l.(values := l.values + [p.values[i]] + r.values, children := l.children + r.children)
    && p' == p.(values := Removed(p.values, i), children := Removed(p.children, i + 1))
  }

  /** The writes after a borrow: sibling, parent, node. */
  ghost function AfterBorrow<E>(nodes: Store<E>, sibling: Node<E>, parent: Node<E>, node: Node<E>): Store<E> {
    nodes[sibling.id := sibling][parent.id := parent][node.id := node]
  }

  /** The writes after a merge of x and y into z. */
  ghost function AfterMerge<E>(nodes: Store<E>, id: nat, parent: Node<E>, x: nat, y: nat, z: Node<E>): Store<E> {
    (nodes[id := parent] - {y})[x := z]
  }

  ghost function AfterCollapse<E>(nodes: Store<E>, id: nat, x: nat, y: nat, z: Node<E>): Store<E> {
    (nodes - {x} - {y})[id := z.(id := id)]
  }

  /** Borrowing from the right sibling, as the loop body writes it. */
  lemma LendFromRight<V>(nodes: Store<Entry<V>>, gs: Path<Entry<V>>, f: Frame<Entry<V>>, cur: Shape<Entry<V>>,
                         h: nat, a: nat, b: nat, s: seq<Entry<V>>)
    returns (up: Shape<Entry<V>>, p': Node<Entry<V>>, n': Node<Entry<V>>, y': Node<Entry<V>>)
    requires Balancing(nodes, gs + [f], cur, h, a, b, s) && |f.left| == 0 && |cur.values| + 1 < a
    requires f.right != [] && a <= |f.right[0].values|
    ensures LentByRight(View(Fill(f, cur)), 0, View(cur), View(f.right[0]), p', n', y')
    ensures View(up) == p' && up.id == f.id
    ensures Balancing(AfterBorrow(nodes, y', p', n'), gs, up, h + 1, a, b, s)
  {
    hide Balancing, Bags, Bag, InOrder, Uniform, Bounded, Receiver, WithoutFirst, JoinTwo, Ids, Removed, Alike;
    RightPair(nodes, gs, f, cur, h, a, b, s);
    AtLeast(nodes, gs, f, cur, h, a, b, s);
    var y, m, j := f.right[0], f.values[0], WithRight(f);
    var u, m', v := Receiver(cur, m, y), y.values[0], WithoutFirst(y);
    PairNodes(nodes, gs, f, cur, h, a, b, s, j, cur, m, y);
    BorrowRight(cur, m, y);
    BorrowRightBags(cur, m, y);
    BorrowRightViews(cur, m, y);
    BorrowRightFits(cur, m, y, h, a, b);
    ReceiverIds(cur, m, y);
    JoinTwoView(j, cur, m, y, u, m', v);
    up := JoinTwo(j, u, m', v);
    p', n', y' := View(up), View(u), View(v);
    BorrowStep(nodes, gs, f, cur, h, a, b, s, j, cur, m, y, u, m', v, nodes[cur.id := n'][j.id := p'][y.id := y']);
    assert nodes[cur.id := n'][j.id := p'][y.id := y'] == nodes[y.id := y'][j.id := p'][cur.id := n'];
  }

  lemma ReceiverIds<E>(x: Shape<E>, m: E, y: Shape<E>)
    requires y.values != []
    ensures Receiver(x, m, y).id == x.id && WithoutFirst(y).id == y.id
  {
  }

  lemma AtLeast<V>(nodes: Store<Entry<V>>, gs: Path<Entry<V>>, f: Frame<Entry<V>>, cur: Shape<Entry<V>>,
                   h: nat, a: nat, b: nat, s: seq<Entry<V>>)
    requires Balancing(nodes, gs + [f], cur, h, a, b, s)
    ensures a <= |cur.values| + 2 && a >= 2 && 2 * a - 1 <= b && (gs == [] ==> |f.values| > 0)
  {
    LastFrame(gs, f, h, a, b);
  }

  /** Borrowing from the left sibling, as the loop body writes it. */
  lemma LendFromLeft<V>(nodes: Store<Entry<V>>, gs: Path<Entry<V>>, f: Frame<Entry<V>>, cur: Shape<Entry<V>>,
                        h: nat, a: nat, b: nat, s: seq<Entry<V>>)
    returns (up: Shape<Entry<V>>, p': Node<Entry<V>>, x': Node<Entry<V>>, n': Node<Entry<V>>)
    requires Balancing(nodes, gs + [f], cur, h, a, b, s) && |f.left| > 0 && |cur.values| + 1 < a
    requires a <= |f.left[|f.left| - 1].values|
    ensures LentByLeft(View(Fill(f, cur)), |f.left| - 1, View(f.left[|f.left| - 1]), View(cur), p', x', n')
    ensures View(up) == p' && up.id == f.id
    ensures Balancing(AfterBorrow(nodes, x', p', n'), gs, up, h + 1, a, b, s)
  {
    hide Balancing, Bags, Bag, InOrder, Uniform, Bounded, Acceptor, WithoutLast, JoinTwo, Ids, Removed, Alike;
    LeftPair(nodes, gs, f, cur, h, a, b, s);
    AtLeast(nodes, gs, f, cur, h, a, b, s);
    var x, m, j := f.left[|f.left| - 1], f.values[|f.left| - 1], WithLeft(f);
    var u, m', v := WithoutLast(x), x.values[|x.values| - 1], Acceptor(x, m, cur);
    PairNodes(nodes, gs, f, cur, h, a, b, s, j, x, m, cur);
    BorrowLeft(x, m, cur);
    BorrowLeftBags(x, m, cur);
    BorrowLeftViews(x, m, cur);
    BorrowLeftFits(x, m, cur, h, a, b);
    AcceptorIds(x, m, cur);
    JoinTwoView(j, x, m, cur, u, m', v);
    up := JoinTwo(j, u, m', v);
    p', x', n' := View(up), View(u), View(v);
    BorrowStep(nodes, gs, f, cur, h, a, b, s, j, x, m, cur, u, m', v, nodes[x.id := x'][j.id := p'][cur.id := n']);
  }

  lemma AcceptorIds<E>(x: Shape<E>, m: E, y: Shape<E>)
    requires x.values != []
    ensures Acceptor(x, m, y).id == y.id && WithoutLast(x).id == x.id
  {
  }

  /** Merging two neighbours, as merge writes it: the root may lose its last value and give way. */
  lemma MergeTurn<V>(nodes: Store<Entry<V>>, gs: Path<Entry<V>>, f: Frame<Entry<V>>, cur: Shape<Entry<V>>,
                     h: nat, a: nat, b: nat, s: seq<Entry<V>>,
                     j: Joint<Entry<V>>, x: Shape<Entry<V>>, m: Entry<V>, y: Shape<Entry<V>>)
    returns (up: Shape<Entry<V>>, p': Node<Entry<V>>, z: Node<Entry<V>>)
    requires Balancing(nodes, gs + [f], cur, h, a, b, s) && Plug(gs + [f], cur).id == 0
    requires PairedFits(f, cur, j, x, m, y, h, a, b) && |cur.values| + 1 < a
    requires |(if x == cur then y.values else x.values)| < a
    ensures MergedInto(View(Fill(f, cur)), |j.vl|, View(x), View(y), p', z)
    ensures gs == [] && |f.values| == 1 ==>
      var after := AfterCollapse(nodes, f.id, x.id, y.id, z);
      TreeStored(after, h, a, b) && InOrder(Unfold(after, 0, h)) == s
    ensures !(gs == [] && |f.values| == 1) ==>
      View(up) == p' && up.id == f.id && Balancing(AfterMerge(nodes, f.id, p', x.id, y.id, z), gs, up, h + 1, a, b, s)
  {
    hide Balancing, Bags, Bag, InOrder, Uniform, Bounded, JoinOne, Ids, Removed, Plug, TreeStored, Unfold, Keyed,
         JointFits;
    PairNodes(nodes, gs, f, cur, h, a, b, s, j, x, m, y);
    AtLeast(nodes, gs, f, cur, h, a, b, s);
    KidsAlike(x, y, h);
    MergeViews(x, m, y);
    JoinOneView(j, x, m, y, Merged(x, m, y));
    up := JoinOne(j, Merged(x, m, y));
    p', z := View(up), View(Merged(x, m, y));
    if gs == [] && |f.values| == 1 {
      assert gs + [f] == [f];
      assert f.id == 0 by { PlugFirst([f], cur); }
      CollapseStep(nodes, f, cur, h, a, b, s, j, x, m, y, (nodes - {x.id} - {y.id})[j.id := z.(id := j.id)]);
    } else {
      MergeStep(nodes, gs, f, cur, h, a, b, s, j, x, m, y, (nodes[j.id := p'] - {y.id})[x.id := z]);
    }
  }
}
